/** The EpLfs union policy ("existing path, least free space"): of the
    candidates on which a path exists, choose the one whose upstream reports
    the least free space. */
module EpLfs {
  import opened Values
  import opened LeastFreeSpace

  // ---------------------------------------------------------------------
  // The two reductions, as specification functions
  // ---------------------------------------------------------------------

  /** What `lfs` returns: the upstream that set the running minimum, seeded
      at math.MaxInt64, or the first query error, or ErrorObjectNotFound when
      no upstream reported less than the seed. */
  function LfsOutcome(upstreams: seq<Upstream>): (r: Outcome<Option<Upstream>>)
    ensures r.value.Some? ==> r.value.value in upstreams && r.err.None?
    ensures r.value.None? ==> r.err.Some?
  {
    match Scan(Spaces(upstreams), MaxInt64)
    case Err(e) => Outcome(None, Some(e))
    case Ok(s) =>
      if s.winner.None? then Outcome(None, Some(ObjectNotFound))
      else Outcome(Some(upstreams[s.winner.value]), None)
  }

  /** What `lfsEntries` returns: the entry that set the running minimum,
      seeded at Go's zero value 0, or the first query error, or a nil entry
      with a nil error when no entry reported less than 0. */
  function LfsEntriesOutcome(entries: seq<Entry>): (r: Outcome<Option<Entry>>)
    ensures r.value.Some? ==> r.value.value in entries && r.err.None?
    ensures r.value.Some? ==> r.value.value.upstream.freeSpace.Ok? && r.value.value.upstream.freeSpace.value < 0
  {
    match Scan(EntrySpaces(entries), 0)
    case Err(e) => Outcome(None, Some(e))
    case Ok(s) =>
      if s.winner.None? then Outcome(None, None)
      else Outcome(Some(entries[s.winner.value]), None)
  }

  // ---------------------------------------------------------------------
  // The two reductions, as the loops they are
  // ---------------------------------------------------------------------

  /** `lfs`: query each upstream in order, return at the first query error,
      and keep the upstream whose free space is strictly below the running
      minimum. `queried` counts the free-space queries issued. */
  method Lfs(upstreams: seq<Upstream>) returns (u: Option<Upstream>, err: Option<Error>, ghost queried: nat)
    ensures Outcome(u, err) == LfsOutcome(upstreams)
    ensures (AllOk(Spaces(upstreams)) && queried == |upstreams|) || FailsFirstAt(Spaces(upstreams), queried - 1)
  {
    ghost var rs := Spaces(upstreams);
    var minFreeSpace: int64 := MaxInt64;
    var lfsUpstream: Option<Upstream> := None;
    ghost var winner: Option<nat> := None;
    queried := 0;
    for i := 0 to |upstreams|
      invariant queried == i
      invariant forall j :: 0 <= j < i ==> rs[j].Ok?
      invariant Scan(rs[..i], MaxInt64) == Ok(Scanned(minFreeSpace, winner))
      invariant winner.None? ==> lfsUpstream.None?
      invariant winner.Some? ==> winner.value < i && lfsUpstream == Some(upstreams[winner.value])
    {
      queried := queried + 1;
      assert rs[..i + 1][..i] == rs[..i];
      var space := upstreams[i].freeSpace;
      if space.Err? {
        ScanAfterFailure(rs[..i + 1], rs[i + 1..], MaxInt64);
        assert rs[..i + 1] + rs[i + 1..] == rs;
        u, err := None, Some(space.error);
        return;
      }
      if space.value < minFreeSpace {
        minFreeSpace := space.value;
        lfsUpstream := Some(upstreams[i]);
        winner := Some(i);
      }
    }
    assert rs[..|upstreams|] == rs;
    if lfsUpstream.None? {
      u, err := None, Some(ObjectNotFound);
      return;
    }
    u, err := lfsUpstream, None;
  }

  /** `lfsEntries`: the same walk over each entry's upstream, with the running
      minimum starting at 0 and no not-found error at the end. */
  method LfsEntries(entries: seq<Entry>) returns (e: Option<Entry>, err: Option<Error>, ghost queried: nat)
    ensures Outcome(e, err) == LfsEntriesOutcome(entries)
    ensures (AllOk(EntrySpaces(entries)) && queried == |entries|) || FailsFirstAt(EntrySpaces(entries), queried - 1)
  {
    ghost var rs := EntrySpaces(entries);
    var minFreeSpace: int64 := 0;
    var lfsEntry: Option<Entry> := None;
    ghost var winner: Option<nat> := None;
    queried := 0;
    for i := 0 to |entries|
      invariant queried == i
      invariant forall j :: 0 <= j < i ==> rs[j].Ok?
      invariant Scan(rs[..i], 0) == Ok(Scanned(minFreeSpace, winner))
      invariant winner.None? ==> lfsEntry.None?
      invariant winner.Some? ==> winner.value < i && lfsEntry == Some(entries[winner.value])
    {
      queried := queried + 1;
      assert rs[..i + 1][..i] == rs[..i];
      var space := entries[i].upstream.freeSpace;
      if space.Err? {
        ScanAfterFailure(rs[..i + 1], rs[i + 1..], 0);
        assert rs[..i + 1] + rs[i + 1..] == rs;
        e, err := None, Some(space.error);
        return;
      }
      if space.value < minFreeSpace {
        minFreeSpace := space.value;
        lfsEntry := Some(entries[i]);
        winner := Some(i);
      }
    }
    assert rs[..|entries|] == rs;
    e, err := lfsEntry, None;
  }

  // ---------------------------------------------------------------------
  // What the reductions promise
  // ---------------------------------------------------------------------

  /** `lfs` stops at the first failing query and returns its error, no handle. */
  lemma LfsFailsAtFirstError(upstreams: seq<Upstream>, i: int)
    requires FailsFirstAt(Spaces(upstreams), i)
    ensures LfsOutcome(upstreams) == Outcome(None, Some(upstreams[i].freeSpace.error))
  {
    ScanFailsAtFirstError(Spaces(upstreams), MaxInt64, i);
  }

  /** `lfs` returns the first upstream with the least free space, unless that
      least value is math.MaxInt64 itself, which is never below the seed. */
  lemma LfsSelectsFirstLeast(upstreams: seq<Upstream>, k: int)
    requires IsFirstLeast(Spaces(upstreams), k)
    ensures LfsOutcome(upstreams) ==
              if upstreams[k].freeSpace.value < MaxInt64 then Outcome(Some(upstreams[k]), None)
              else Outcome(None, Some(ObjectNotFound))
  {
    var rs := Spaces(upstreams);
    ScanWinner(rs, MaxInt64, k);
    var s := Scan(rs, MaxInt64).value;
    if s.winner.Some? {
      ScanWinner(rs, MaxInt64, s.winner.value);
    }
  }

  /** When every query succeeds, `lfs` reports ErrorObjectNotFound exactly when
      every upstream reports math.MaxInt64 (in particular when there is none). */
  lemma LfsNotFound(upstreams: seq<Upstream>)
    requires AllOk(Spaces(upstreams))
    ensures LfsOutcome(upstreams).err == Some(ObjectNotFound) <==>
              forall j :: 0 <= j < |upstreams| ==> upstreams[j].freeSpace == Ok(MaxInt64)
  {
    var rs := Spaces(upstreams);
    ScanFindsFirstLeast(rs, MaxInt64);
    var s := Scan(rs, MaxInt64).value;
    if s.winner.Some? {
      var k := s.winner.value;
      assert upstreams[k].freeSpace.value < MaxInt64;
    } else {
      forall j | 0 <= j < |upstreams| ensures upstreams[j].freeSpace == Ok(MaxInt64) {
        assert rs[j] == upstreams[j].freeSpace && rs[j].value >= MaxInt64;
      }
    }
  }

  /** `lfsEntries` stops at the first failing query and returns its error, no entry. */
  lemma LfsEntriesFailsAtFirstError(entries: seq<Entry>, i: int)
    requires FailsFirstAt(EntrySpaces(entries), i)
    ensures LfsEntriesOutcome(entries) == Outcome(None, Some(entries[i].upstream.freeSpace.error))
  {
    ScanFailsAtFirstError(EntrySpaces(entries), 0, i);
  }

  /** `lfsEntries` returns the first entry with the least free space only when
      that value is negative; otherwise a nil entry and a nil error. */
  lemma LfsEntriesSelectsFirstLeast(entries: seq<Entry>, k: int)
    requires IsFirstLeast(EntrySpaces(entries), k)
    ensures LfsEntriesOutcome(entries) ==
              if entries[k].upstream.freeSpace.value < 0 then Outcome(Some(entries[k]), None)
              else Outcome(None, None)
  {
    var rs := EntrySpaces(entries);
    ScanWinner(rs, 0, k);
    var s := Scan(rs, 0).value;
    if s.winner.Some? {
      ScanWinner(rs, 0, s.winner.value);
    }
  }

  /** `lfsEntries` never reports an error of its own: it fails only when a
      query fails, and when every query succeeds it returns a nil entry with a
      nil error exactly when no upstream reports negative free space. */
  lemma LfsEntriesErrorsOnlyFromQueries(entries: seq<Entry>)
    ensures LfsEntriesOutcome(entries).err.Some? <==> !AllOk(EntrySpaces(entries))
    ensures AllOk(EntrySpaces(entries)) ==>
              (LfsEntriesOutcome(entries) == Outcome(None, None) <==>
               forall j :: 0 <= j < |entries| ==> entries[j].upstream.freeSpace.Ok? && entries[j].upstream.freeSpace.value >= 0)
  {
    var rs := EntrySpaces(entries);
    ScanOkIffAllOk(rs, 0);
    if AllOk(rs) {
      ScanFindsFirstLeast(rs, 0);
      var s := Scan(rs, 0).value;
      if s.winner.Some? {
        assert rs[s.winner.value].value < 0;
      } else {
        forall j | 0 <= j < |entries|
          ensures entries[j].upstream.freeSpace.Ok? && entries[j].upstream.freeSpace.value >= 0
        {
          assert rs[j] == entries[j].upstream.freeSpace && rs[j].Ok? && rs[j].value >= 0;
        }
      }
    }
  }

  // ---------------------------------------------------------------------
  // The six category policies
  // ---------------------------------------------------------------------

  /** Action: filter with EpAll's Action policy, then `lfs`, wrapped in a
      one-element slice. A filter error comes back as is, with a nil slice. */
  function Action(epAllAction: (seq<Upstream>, string) -> Result<seq<Upstream>>,
                  upstreams: seq<Upstream>, path: string): (r: Outcome<seq<Option<Upstream>>>)
    ensures epAllAction(upstreams, path).Err? ==> r == Outcome([], Some(epAllAction(upstreams, path).error))
    ensures epAllAction(upstreams, path).Ok? ==>
              && |r.value| == 1
              && (r.value[0].None? <==> r.err.Some?)
              && (r.value[0].Some? ==> r.value[0].value in epAllAction(upstreams, path).value)
              && Outcome(r.value[0], r.err) == LfsOutcome(epAllAction(upstreams, path).value)
  {
    match epAllAction(upstreams, path)
    case Err(e) => Outcome([], Some(e))
    case Ok(filtered) =>
      var lfs := LfsOutcome(filtered);
      Outcome([lfs.value], lfs.err)
  }

  /** ActionEntries: filter with EpAll's ActionEntries policy, then
      `lfsEntries`, wrapped in a one-element slice. */
  function ActionEntries(epAllActionEntries: seq<Entry> -> Result<seq<Entry>>,
                         entries: seq<Entry>): (r: Outcome<seq<Option<Entry>>>)
    ensures epAllActionEntries(entries).Err? ==> r == Outcome([], Some(epAllActionEntries(entries).error))
    ensures epAllActionEntries(entries).Ok? ==>
              && |r.value| == 1
              && (r.err.Some? ==> r.value[0].None?)
              && (r.value[0].Some? ==> r.value[0].value in epAllActionEntries(entries).value)
              && Outcome(r.value[0], r.err) == LfsEntriesOutcome(epAllActionEntries(entries).value)
  {
    match epAllActionEntries(entries)
    case Err(e) => Outcome([], Some(e))
    case Ok(filtered) =>
      var lfs := LfsEntriesOutcome(filtered);
      Outcome([lfs.value], lfs.err)
  }

  /** Create: filter with EpAll's Create policy, then `lfs`, wrapped in a
      one-element slice. A filter error comes back as is, with a nil slice. */
  function Create(epAllCreate: (seq<Upstream>, string) -> Result<seq<Upstream>>,
                  upstreams: seq<Upstream>, path: string): (r: Outcome<seq<Option<Upstream>>>)
    ensures epAllCreate(upstreams, path).Err? ==> r == Outcome([], Some(epAllCreate(upstreams, path).error))
    ensures epAllCreate(upstreams, path).Ok? ==>
              && |r.value| == 1
              && (r.value[0].None? <==> r.err.Some?)
              && (r.value[0].Some? ==> r.value[0].value in epAllCreate(upstreams, path).value)
              && Outcome(r.value[0], r.err) == LfsOutcome(epAllCreate(upstreams, path).value)
  {
    match epAllCreate(upstreams, path)
    case Err(e) => Outcome([], Some(e))
    case Ok(filtered) =>
      var lfs := LfsOutcome(filtered);
      Outcome([lfs.value], lfs.err)
  }

  /** CreateEntries: filter with EpAll's CreateEntries policy, then
      `lfsEntries`, wrapped in a one-element slice. */
  function CreateEntries(epAllCreateEntries: seq<Entry> -> Result<seq<Entry>>,
                         entries: seq<Entry>): (r: Outcome<seq<Option<Entry>>>)
    ensures epAllCreateEntries(entries).Err? ==> r == Outcome([], Some(epAllCreateEntries(entries).error))
    ensures epAllCreateEntries(entries).Ok? ==>
              && |r.value| == 1
              && (r.err.Some? ==> r.value[0].None?)
              && (r.value[0].Some? ==> r.value[0].value in epAllCreateEntries(entries).value)
              && Outcome(r.value[0], r.err) == LfsEntriesOutcome(epAllCreateEntries(entries).value)
  {
    match epAllCreateEntries(entries)
    case Err(e) => Outcome([], Some(e))
    case Ok(filtered) =>
      var lfs := LfsEntriesOutcome(filtered);
      Outcome([lfs.value], lfs.err)
  }

  /** Search: ErrorObjectNotFound for no candidates, before the filter is
      consulted; otherwise filter with `epall` and return `lfs` of the rest. */
  function Search(epall: (seq<Upstream>, string) -> Result<seq<Upstream>>,
                  upstreams: seq<Upstream>, path: string): (r: Outcome<Option<Upstream>>)
    ensures upstreams == [] ==> r == Outcome(None, Some(ObjectNotFound))
    ensures upstreams != [] && epall(upstreams, path).Err? ==> r == Outcome(None, Some(epall(upstreams, path).error))
    ensures upstreams != [] && epall(upstreams, path).Ok? ==> r == LfsOutcome(epall(upstreams, path).value)
  {
    if |upstreams| == 0 then Outcome(None, Some(ObjectNotFound))
    else
      match epall(upstreams, path)
      case Err(e) => Outcome(None, Some(e))
      case Ok(filtered) => LfsOutcome(filtered)
  }

  /** SearchEntries: ErrorObjectNotFound for no entries; otherwise
      `lfsEntries` of the entries as given, with no filter step. */
  function SearchEntries(entries: seq<Entry>): (r: Outcome<Option<Entry>>)
    ensures entries == [] ==> r == Outcome(None, Some(ObjectNotFound))
    ensures entries != [] ==> r == LfsEntriesOutcome(entries)
    ensures r.value.Some? ==> r.value.value in entries
  {
    if |entries| == 0 then Outcome(None, Some(ObjectNotFound))
    else LfsEntriesOutcome(entries)
  }

  // ---------------------------------------------------------------------
  // What the category policies promise
  // ---------------------------------------------------------------------

  /** Action and Create pick, among the upstreams on which the path exists,
      the first with the least free space, as long as it is below math.MaxInt64. */
  lemma ActionPicksFirstLeastExisting(epAllAction: (seq<Upstream>, string) -> Result<seq<Upstream>>,
                                      upstreams: seq<Upstream>, path: string, k: int)
    requires epAllAction(upstreams, path).Ok?
    requires IsFirstLeast(Spaces(epAllAction(upstreams, path).value), k)
    requires epAllAction(upstreams, path).value[k].freeSpace.value < MaxInt64
    ensures Action(epAllAction, upstreams, path) == Outcome([Some(epAllAction(upstreams, path).value[k])], None)
    ensures Create(epAllAction, upstreams, path) == Outcome([Some(epAllAction(upstreams, path).value[k])], None)
  {
    LfsSelectsFirstLeast(epAllAction(upstreams, path).value, k);
  }

  /** Search picks, among the upstreams on which the path exists, the first
      with the least free space; the winner is one of the candidates given
      whenever the filter only keeps candidates it was given. */
  lemma SearchPicksFirstLeastExisting(epall: (seq<Upstream>, string) -> Result<seq<Upstream>>,
                                      upstreams: seq<Upstream>, path: string, k: int)
    requires upstreams != [] && epall(upstreams, path).Ok?
    requires IsFirstLeast(Spaces(epall(upstreams, path).value), k)
    requires epall(upstreams, path).value[k].freeSpace.value < MaxInt64
    ensures Search(epall, upstreams, path) == Outcome(Some(epall(upstreams, path).value[k]), None)
    ensures (forall x :: x in epall(upstreams, path).value ==> x in upstreams) ==>
              epall(upstreams, path).value[k] in upstreams
  {
    LfsSelectsFirstLeast(epall(upstreams, path).value, k);
  }

  /** A failing free-space query on a filtered candidate fails the whole
      call with that error, whatever the other candidates report. */
  lemma SearchFailsAtFirstError(epall: (seq<Upstream>, string) -> Result<seq<Upstream>>,
                                upstreams: seq<Upstream>, path: string, i: int)
    requires upstreams != [] && epall(upstreams, path).Ok?
    requires FailsFirstAt(Spaces(epall(upstreams, path).value), i)
    ensures Search(epall, upstreams, path) == Outcome(None, Some(epall(upstreams, path).value[i].freeSpace.error))
  {
    LfsFailsAtFirstError(epall(upstreams, path).value, i);
  }

  /** The entry-based policies never select an entry while every upstream
      reports non-negative free space, because `lfsEntries` starts its
      running minimum at 0: with the filtered entries all non-negative,
      ActionEntries and CreateEntries answer `[nil]` with a nil error, and
      SearchEntries on non-empty, all non-negative input answers a nil entry
      with a nil error. */
  lemma EntryPoliciesNeverSelectNonNegative(epAllActionEntries: seq<Entry> -> Result<seq<Entry>>,
                                            entries: seq<Entry>)
    requires epAllActionEntries(entries).Ok?
    requires forall e :: e in epAllActionEntries(entries).value ==>
               e.upstream.freeSpace.Ok? && e.upstream.freeSpace.value >= 0
    ensures ActionEntries(epAllActionEntries, entries) == Outcome([None], None)
    ensures CreateEntries(epAllActionEntries, entries) == Outcome([None], None)
    ensures entries != [] &&
            (forall e :: e in entries ==> e.upstream.freeSpace.Ok? && e.upstream.freeSpace.value >= 0)
            ==> SearchEntries(entries) == Outcome(None, None)
  {
    var filtered := epAllActionEntries(entries).value;
    NonNegativeYieldsNil(filtered);
    if forall e :: e in entries ==> e.upstream.freeSpace.Ok? && e.upstream.freeSpace.value >= 0 {
      NonNegativeYieldsNil(entries);
    }
  }

  /** Helper: no negative free space, so `lfsEntries` finds nothing. */
  lemma NonNegativeYieldsNil(entries: seq<Entry>)
    requires forall e :: e in entries ==> e.upstream.freeSpace.Ok? && e.upstream.freeSpace.value >= 0
    ensures LfsEntriesOutcome(entries) == Outcome(None, None)
  {
    var rs := EntrySpaces(entries);
    assert forall j :: 0 <= j < |rs| ==> rs[j] == entries[j].upstream.freeSpace && entries[j] in entries;
    LfsEntriesErrorsOnlyFromQueries(entries);
  }

  // ---------------------------------------------------------------------
  // Scenarios
  // ---------------------------------------------------------------------

  /** A(500), B(100), C(300), all existing: B wins. */
  lemma ScenarioLeastWins(a: string, b: string, c: string)
    ensures LfsOutcome([Upstream(a, Ok(500)), Upstream(b, Ok(100)), Upstream(c, Ok(300))])
            == Outcome(Some(Upstream(b, Ok(100))), None)
  {
    var us := [Upstream(a, Ok(500)), Upstream(b, Ok(100)), Upstream(c, Ok(300))];
    assert IsFirstLeast(Spaces(us), 1);
    LfsSelectsFirstLeast(us, 1);
  }

  /** A(100), B(100): the first one seen, A, wins the tie. */
  lemma ScenarioTieFirstSeen(a: string, b: string)
    requires a != b
    ensures LfsOutcome([Upstream(a, Ok(100)), Upstream(b, Ok(100))]) == Outcome(Some(Upstream(a, Ok(100))), None)
  {
    var us := [Upstream(a, Ok(100)), Upstream(b, Ok(100))];
    assert IsFirstLeast(Spaces(us), 0);
    LfsSelectsFirstLeast(us, 0);
  }

  /** B's query fails: the call fails with B's error, whatever A and C report. */
  lemma ScenarioQueryFailure(a: string, b: string, c: string, sa: int64, sc: Result<int64>, e: Error)
    ensures LfsOutcome([Upstream(a, Ok(sa)), Upstream(b, Err(e)), Upstream(c, sc)]) == Outcome(None, Some(e))
  {
    var us := [Upstream(a, Ok(sa)), Upstream(b, Err(e)), Upstream(c, sc)];
    assert FailsFirstAt(Spaces(us), 1);
    LfsFailsAtFirstError(us, 1);
  }

  /** Empty candidates: Search reports not found; Action, when its filter
      returns an empty set, reports not found inside a `[nil]` slice. */
  lemma ScenarioNoCandidates(epAllAction: (seq<Upstream>, string) -> Result<seq<Upstream>>,
                             epall: (seq<Upstream>, string) -> Result<seq<Upstream>>, path: string)
    requires epAllAction([], path) == Ok([])
    ensures Search(epall, [], path) == Outcome(None, Some(ObjectNotFound))
    ensures Action(epAllAction, [], path) == Outcome([None], Some(ObjectNotFound))
  {
  }
}
