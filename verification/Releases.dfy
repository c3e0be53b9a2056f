/**
 Zero-downtime deploys: release directories named by timestamp, a `current` link swapped
 atomically, and pruning of old releases after each success.
 */
module Releases {
  import opened Text

  type Id = string

  // ---- Names and their order ------------------------------------------------------

  /** The order of `String`: lexicographic. */
  predicate Less(a: Id, b: Id) {
    b != "" && (a == "" || a[0] < b[0] || (a[0] == b[0] && Less(a[1..], b[1..])))
  }

  lemma {:induction false} LessTotal(a: Id, b: Id)
    ensures Less(a, b) || a == b || Less(b, a)
    ensures !(Less(a, b) && Less(b, a)) && !Less(a, a)
    decreases |a|
  {
    if a == "" {
    } else {
      LessTotal(a[1..], if b == "" then "" else b[1..]);
      if b != "" && a[0] == b[0] && a[1..] == b[1..] {
        assert a == [a[0]] + a[1..] == b;
      }
    }
  }

  lemma {:induction false} LessTransitive(a: Id, b: Id, c: Id)
    requires Less(a, b) && Less(b, c)
    ensures Less(a, c)
    decreases |a|
  {
    if a != "" && a[0] == b[0] && b[0] == c[0] {
      LessTransitive(a[1..], b[1..], c[1..]);
    }
  }

  lemma {:induction false} DecimalBound(s: string)
    requires AllDigits(s)
    ensures Decimal(s) < Pow10(|s|)
  {
    if s == "" {
    } else {
      DecimalStep(s);
      DecimalBound(s[1..]);
      hide Decimal, AllDigits, DigitValue;
      assert Pow10(|s|) == 10 * Pow10(|s| - 1);
      AtMostNine(DigitValue(s[0]), Pow10(|s| - 1));
    }
  }

  lemma AtMostNine(d: nat, p: nat)
    requires d < 10
    ensures d * p <= 9 * p
  {
  }

  lemma {:induction false} LeadingDigit(x: nat, y: nat, p: nat, u: nat)
    requires u < p
    ensures x < y ==> x * p + u < y * p
    decreases y
  {
    if x + 1 == y {
      assert (x + 1) * p == x * p + p;
    } else if x < y {
      LeadingDigit(x, y - 1, p, u);
      assert (y - 1) * p == y * p - p;
    }
  }

  /** Timestamps of one length, such as the 14 digits of a release, sort as the numbers they are. */
  lemma {:induction false} LessIsNumeric(a: string, b: string)
    requires |a| == |b| && AllDigits(a) && AllDigits(b)
    ensures Less(a, b) <==> Decimal(a) < Decimal(b)
  {
    if a == "" {
    } else {
      DecimalStep(a);
      DecimalStep(b);
      LessIsNumeric(a[1..], b[1..]);
      DecimalBound(a[1..]);
      DecimalBound(b[1..]);
      var p, x, y := Pow10(|a| - 1), DigitValue(a[0]), DigitValue(b[0]);
      LeadingDigit(x, y, p, Decimal(a[1..]));
      LeadingDigit(y, x, p, Decimal(b[1..]));
    }
  }

  predicate Ascending(s: seq<Id>) {
    forall i, j | 0 <= i < j < |s| :: Less(s[i], s[j])
  }

  function Insert(x: Id, s: seq<Id>): (r: seq<Id>)
    ensures forall y :: y in r <==> y == x || y in s
    ensures |r| == |s| + 1
  {
    if s == [] || Less(x, s[0]) then [x] + s else [s[0]] + Insert(x, s[1..])
  }

  /** `Vec::sort`. */
  function Sort(s: seq<Id>): (r: seq<Id>)
    ensures forall y :: y in r <==> y in s
    ensures |r| == |s|
  {
    if s == [] then [] else Insert(s[0], Sort(s[1..]))
  }

  lemma {:induction false} InsertAscending(x: Id, s: seq<Id>)
    requires Ascending(s) && x !in s
    ensures Ascending(Insert(x, s))
  {
    if s == [] {
    } else {
      var r := Insert(x, s);
      if Less(x, s[0]) {
        forall j | 0 < j < |r|
          ensures Less(r[0], r[j])
        {
          if j > 1 {
            LessTransitive(x, s[0], s[j - 1]);
          }
        }
      } else {
        LessTotal(x, s[0]);
        InsertAscending(x, s[1..]);
        forall j | 0 < j < |r|
          ensures Less(r[0], r[j])
        {
          assert r[j] in Insert(x, s[1..]);
          if r[j] != x {
            var k :| 0 <= k < |s[1..]| && s[1..][k] == r[j];
            assert s[1..][k] == s[k + 1];
          }
        }
      }
    }
  }

  predicate Distinct(s: seq<Id>) {
    forall i, j | 0 <= i < j < |s| :: s[i] != s[j]
  }

  lemma {:induction false} SortAscending(s: seq<Id>)
    requires Distinct(s)
    ensures Ascending(Sort(s))
  {
    if s == [] {
    } else {
      assert s[0] !in s[1..];
      SortAscending(s[1..]);
      InsertAscending(s[0], Sort(s[1..]));
    }
  }

  // ---- A site on disk ---------------------------------------------------------------

  datatype Site = Site(releases: set<Id>, current: Option<Id>)

  /** `current`, once set, names an existing release directory. */
  predicate Safe(site: Site) {
    site.current.Some? ==> site.current.value in site.releases
  }

  /** The order in which a directory is listed is up to the file system. */
  ghost predicate Lists(readDir: set<Id> -> seq<Id>) {
    forall rs :: Distinct(readDir(rs)) && forall y :: y in readDir(rs) <==> y in rs
  }

  /** How a deploy can end. A failed clone or script is cleaned up, unless the removal fails too. */
  datatype Outcome =
    | KeyRejected
    | CloneTimedOut(partial: bool)
    | CloneFailed(cleaned: bool)
    | ScriptTimedOut
    | ScriptFailed(cleaned: bool)
    | SwapFailed
    | Deployed

  /** The number of releases kept: 5 unless requested otherwise, clamped to 2..20. */
  function KeepOf(requested: Option<nat>): (keep: nat)
    ensures 2 <= keep <= 20
  {
    var keep := if requested.Some? then requested.value else 5;
    if keep < 2 then 2 else if keep > 20 then 20 else keep
  }

  function Without(site: Site, name: Id, stuck: set<Id>): Site {
    if name in stuck then site else site.(releases := site.releases - {name})
  }

  /** The states in which removing `olds` one by one leaves the site; names in `stuck` resist removal. */
  function RemoveTrace(site: Site, olds: seq<Id>, stuck: set<Id>): seq<Site>
    decreases |olds|
  {
    if olds == [] then []
    else
      var next := Without(site, olds[0], stuck);
      [next] + RemoveTrace(next, olds[1..], stuck)
  }

  /** The releases that pruning removes: all but the last `keep` in ascending order. */
  function Doomed(sorted: seq<Id>, keep: nat): seq<Id> {
    if |sorted| > keep then sorted[..|sorted| - keep] else []
  }

  function Last(site: Site, trace: seq<Site>): Site {
    if trace == [] then site else trace[|trace| - 1]
  }

  /** The states a deploy goes through, one per change of the disk. */
  function DeployTrace(site: Site, id: Id, outcome: Outcome, keep: nat, stuck: set<Id>,
                       readDir: set<Id> -> seq<Id>): seq<Site>
  {
    var cloned := site.(releases := site.releases + {id});
    match outcome
    case KeyRejected => []
    case CloneTimedOut(partial) => if partial then [cloned] else []
    case CloneFailed(cleaned) => if cleaned then [cloned, Without(cloned, id, {})] else [cloned]
    case ScriptTimedOut => [cloned]
    case ScriptFailed(cleaned) => if cleaned then [cloned, Without(cloned, id, {})] else [cloned]
    case SwapFailed => [cloned]
    case Deployed =>
      var swapped := cloned.(current := Some(id));
      [cloned, swapped] + RemoveTrace(swapped, Doomed(Sort(readDir(swapped.releases)), keep), stuck)
  }

  lemma DeployedTrace(site: Site, id: Id, keep: nat, stuck: set<Id>, readDir: set<Id> -> seq<Id>, pruned: seq<Site>)
    requires var swapped := Site(site.releases + {id}, Some(id));
             pruned == RemoveTrace(swapped, Doomed(Sort(readDir(swapped.releases)), keep), stuck)
    ensures var swapped := Site(site.releases + {id}, Some(id));
            var steps := DeployTrace(site, id, Deployed, keep, stuck, readDir);
            && steps == [site.(releases := site.releases + {id}), swapped] + pruned
            && Last(site, steps) == Last(swapped, pruned)
  {
  }

  lemma RemoveTraceStep(site: Site, olds: seq<Id>, i: nat, stuck: set<Id>)
    requires i < |olds|
    ensures var next := Without(site, olds[i], stuck);
            var steps := RemoveTrace(next, olds[i + 1..], stuck);
            RemoveTrace(site, olds[i..], stuck) == [next] + steps
            && Last(site, RemoveTrace(site, olds[i..], stuck)) == Last(next, steps)
  {
    hide Without;
    assert olds[i..][1..] == olds[i + 1..];
  }

  /** The check of a release id that is to be activated. */
  predicate ValidId(id: string) {
    id != "" && |id| <= 20 && AllDigits(id)
  }

  function ActivateTrace(site: Site, id: Id, swapped: bool): seq<Site> {
    if ValidId(id) && id in site.releases && swapped then [site.(current := Some(id))] else []
  }

  /** Of `n` releases `kept` remain: as many as requested, 5 if no number is, at least 2 and at most 20, or all. */
  predicate KeptAsRequested(n: nat, kept: nat, requested: Option<nat>) {
    var k := if requested == None then 5
             else if requested.value < 2 then 2
             else if requested.value > 20 then 20
             else requested.value;
    kept == if n < k then n else k
  }

  class SiteDirectory {
    var releases: set<Id>
    var current: Option<Id>
    ghost var trace: seq<Site>

    constructor ()
      ensures View() == Site({}, None) && trace == []
    {
      releases, current, trace := {}, None, [];
    }

    function View(): Site
      reads this
    {
      Site(releases, current)
    }

    /** The deploy itself: clone, run the script, swap the link, prune. */
    method AtomicDeploy(id: Id, outcome: Outcome, requested: Option<nat>, stuck: set<Id>, readDir: set<Id> -> seq<Id>)
      returns (success: bool)
      modifies this
      ensures var steps := DeployTrace(old(View()), id, outcome, KeepOf(requested), stuck, readDir);
              trace == old(trace) + steps && View() == Last(old(View()), steps)
      ensures success <==> outcome.Deployed?
      ensures Lists(readDir) && id !in old(releases) && success && stuck == {} ==>
                KeptAsRequested(|old(releases)| + 1, |releases|, requested)
    {
      hide Sort, Doomed, RemoveTrace, Less, KeptAsRequested, Lists;
      var keep := KeepOf(requested);
      if outcome.KeyRejected? || outcome == CloneTimedOut(false) {
        return false;
      }
      releases := releases + {id};
      trace := trace + [View()];
      if outcome.CloneFailed? || outcome.ScriptFailed? {
        if outcome.cleaned {
          releases := releases - {id};
          trace := trace + [View()];
        }
        return false;
      }
      if outcome.CloneTimedOut? || outcome.ScriptTimedOut? || outcome.SwapFailed? {
        return false;
      }
      current := Some(id);
      trace := trace + [View()];
      ghost var pruned := RemoveTrace(View(), Doomed(Sort(readDir(releases)), keep), stuck);
      DeployedTrace(old(View()), id, keep, stuck, readDir, pruned);
      Prune(keep, stuck, readDir);
      KeptByDeploy(old(View()), id, requested, stuck, readDir);
      success := true;
    }

    /** Removing all but the `keep` last releases, oldest first. */
    method Prune(keep: nat, stuck: set<Id>, readDir: set<Id> -> seq<Id>)
      modifies this
      ensures var steps := RemoveTrace(old(View()), Doomed(Sort(readDir(old(releases))), keep), stuck);
              trace == old(trace) + steps && View() == Last(old(View()), steps)
    {
      var sorted := Sort(readDir(releases));
      ghost var steps := RemoveTrace(View(), Doomed(sorted, keep), stuck);
      if |sorted| > keep {
        var olds := sorted[..|sorted| - keep];
        for i := 0 to |olds|
          invariant trace + RemoveTrace(View(), olds[i..], stuck) == old(trace) + steps
          invariant Last(View(), RemoveTrace(View(), olds[i..], stuck)) == Last(old(View()), steps)
        {
          ghost var here := View();
          RemoveTraceStep(here, olds, i, stuck);
          if olds[i] !in stuck {
            releases := releases - {olds[i]};
          }
          assert View() == Without(here, olds[i], stuck);
          hide Sort, Doomed, RemoveTrace, Last;
          trace := trace + [View()];
        }
        assert olds[|olds|..] == [];
      }
    }

    /** Rollback; `swapped` says whether the file system lets the link be replaced. */
    method ActivateRelease(id: Id, swapped: bool) returns (ok: bool)
      modifies this
      ensures var steps := ActivateTrace(old(View()), id, swapped);
              trace == old(trace) + steps && View() == Last(old(View()), steps)
      ensures ok <==> ValidId(id) && id in old(releases) && swapped
    {
      if !ValidId(id) || id !in releases || !swapped {
        return false;
      }
      current := Some(id);
      trace := trace + [View()];
      ok := true;
    }
  }

  // ---- Safety over every run ----------------------------------------------------------

  datatype Op =
    | Deploy(id: Id, outcome: Outcome, requested: Option<nat>, stuck: set<Id>)
    | Activate(id: Id, swapped: bool)

  function OpTrace(site: Site, op: Op, readDir: set<Id> -> seq<Id>): seq<Site> {
    match op
    case Deploy(id, outcome, requested, stuck) => DeployTrace(site, id, outcome, KeepOf(requested), stuck, readDir)
    case Activate(id, swapped) => ActivateTrace(site, id, swapped)
  }

  function RunTrace(site: Site, ops: seq<Op>, readDir: set<Id> -> seq<Id>): seq<Site>
    decreases |ops|
  {
    if ops == [] then []
    else
      var steps := OpTrace(site, ops[0], readDir);
      steps + RunTrace(Last(site, steps), ops[1..], readDir)
  }

  /** Deploys happen in different seconds: their ids increase, beyond `newest`. */
  predicate Increasing(newest: Id, ops: seq<Op>)
    decreases |ops|
  {
    ops == [] ||
    match ops[0]
    case Deploy(id, _, _, _) => Less(newest, id) && Increasing(id, ops[1..])
    case Activate(_, _) => Increasing(newest, ops[1..])
  }

  predicate UpTo(site: Site, newest: Id) {
    forall r <- site.releases :: r == newest || Less(r, newest)
  }

  predicate AllSafe(trace: seq<Site>) {
    forall i | 0 <= i < |trace| :: Safe(trace[i])
  }

  lemma LastSafe(site: Site, trace: seq<Site>, newest: Id)
    requires Safe(site) && UpTo(site, newest)
    requires AllSafe(trace) && forall i | 0 <= i < |trace| :: UpTo(trace[i], newest)
    ensures Safe(Last(site, trace)) && UpTo(Last(site, trace), newest)
  {
  }

  lemma {:induction false} RemoveSafe(site: Site, olds: seq<Id>, stuck: set<Id>, newest: Id)
    requires Safe(site) && UpTo(site, newest)
    requires site.current.Some? ==> site.current.value !in olds
    ensures var steps := RemoveTrace(site, olds, stuck);
            AllSafe(steps) && forall i | 0 <= i < |steps| :: UpTo(steps[i], newest)
    decreases |olds|
  {
    if olds == [] {
    } else {
      RemoveSafe(Without(site, olds[0], stuck), olds[1..], stuck, newest);
    }
  }

  /** The newest release is never among those pruned. */
  lemma NewestNotDoomed(sorted: seq<Id>, keep: nat, newest: Id)
    requires Ascending(sorted) && newest in sorted && keep > 0
    requires forall r <- sorted :: r == newest || Less(r, newest)
    ensures newest !in Doomed(sorted, keep)
  {
    var last := sorted[|sorted| - 1];
    assert last in sorted;
    forall i | 0 <= i < |sorted| - 1
      ensures sorted[i] != newest
    {
      assert Less(sorted[i], last);
      LessTotal(last, newest);
    }
  }

  lemma {:induction false} DeploySafe(site: Site, id: Id, outcome: Outcome, keep: nat, stuck: set<Id>,
                                      readDir: set<Id> -> seq<Id>, newest: Id)
    requires Lists(readDir) && Safe(site) && UpTo(site, newest) && Less(newest, id) && keep > 0
    ensures var steps := DeployTrace(site, id, outcome, keep, stuck, readDir);
            AllSafe(steps) && forall i | 0 <= i < |steps| :: UpTo(steps[i], id)
  {
    forall r | r in site.releases
      ensures Less(r, id)
    {
      if r != newest {
        LessTransitive(r, newest, id);
      }
    }
    LessTotal(id, id);
    var swapped := Site(site.releases + {id}, Some(id));
    var sorted := Sort(readDir(swapped.releases));
    SortAscending(readDir(swapped.releases));
    NewestNotDoomed(sorted, keep, id);
    RemoveSafe(swapped, Doomed(sorted, keep), stuck, id);
  }

  /**
   In every run of deploys (failing in any way or succeeding) and rollbacks, `current` names an
   existing release directory in every state the disk goes through, in the middle of pruning included.
   */
  lemma {:induction false} RunSafe(site: Site, ops: seq<Op>, readDir: set<Id> -> seq<Id>, newest: Id)
    requires Lists(readDir) && Safe(site) && UpTo(site, newest) && Increasing(newest, ops)
    ensures AllSafe(RunTrace(site, ops, readDir))
    decreases |ops|
  {
    if ops == [] {
    } else {
      var steps := OpTrace(site, ops[0], readDir);
      match ops[0]
      case Deploy(id, outcome, requested, stuck) =>
        DeploySafe(site, id, outcome, KeepOf(requested), stuck, readDir, newest);
        assert UpTo(site, id) by {
          forall r | r in site.releases
            ensures Less(r, id)
          {
            if r != newest {
              LessTransitive(r, newest, id);
            }
          }
        }
        LastSafe(site, steps, id);
        RunSafe(Last(site, steps), ops[1..], readDir, id);
      case Activate(id, swapped) =>
        LastSafe(site, steps, newest);
        RunSafe(Last(site, steps), ops[1..], readDir, newest);
    }
  }

  // ---- Retention -------------------------------------------------------------------------

  lemma {:induction false} RemoveAll(site: Site, olds: seq<Id>)
    ensures Last(site, RemoveTrace(site, olds, {})) == site.(releases := set r | r in site.releases && r !in olds)
    decreases |olds|
  {
    if olds == [] {
      assert site.releases == set r | r in site.releases && r !in olds;
    } else {
      var next := Without(site, olds[0], {});
      RemoveAll(next, olds[1..]);
      assert olds == [olds[0]] + olds[1..];
      assert (set r | r in next.releases && r !in olds[1..]) == set r | r in site.releases && r !in olds;
    }
  }

  lemma {:induction false} AscendingSize(s: seq<Id>)
    requires Ascending(s)
    ensures |set r | r in s| == |s|
  {
    if s == [] {
    } else {
      AscendingSize(s[1..]);
      LessTotal(s[0], s[0]);
      assert s[0] !in s[1..];
      assert (set r | r in s) == {s[0]} + set r | r in s[1..];
    }
  }

  lemma DeployLeaves(site: Site, id: Id, keep: nat, readDir: set<Id> -> seq<Id>) returns (sorted: seq<Id>)
    requires Lists(readDir)
    ensures Ascending(sorted) && forall r :: r in sorted <==> r in site.releases + {id}
    ensures Last(site, DeployTrace(site, id, Deployed, keep, {}, readDir)).releases
         == set r | r in sorted && r !in Doomed(sorted, keep)
  {
    var swapped := Site(site.releases + {id}, Some(id));
    sorted := Sort(readDir(swapped.releases));
    SortAscending(readDir(swapped.releases));
    RemoveAll(swapped, Doomed(sorted, keep));
    hide Ascending, Sort, RemoveTrace;
  }

  /** After a successful deploy exactly the min(n + 1, keep) greatest releases remain. */
  lemma {:induction false} DeployKeepsGreatest(site: Site, id: Id, keep: nat, readDir: set<Id> -> seq<Id>)
    requires Lists(readDir) && id !in site.releases
    ensures var before := site.releases + {id};
            var after := Last(site, DeployTrace(site, id, Deployed, keep, {}, readDir)).releases;
            && after <= before
            && |after| == (if |site.releases| + 1 < keep then |site.releases| + 1 else keep)
            && forall kept, gone | kept in after && gone in before - after :: Less(gone, kept)
  {
    hide *;
    var sorted := DeployLeaves(site, id, keep, readDir);
    SplitKeepsGreatest(site.releases + {id}, sorted, keep);
  }

  lemma SplitKeepsGreatest(before: set<Id>, sorted: seq<Id>, keep: nat)
    requires Ascending(sorted) && forall r :: r in sorted <==> r in before
    ensures var after := set r | r in sorted && r !in Doomed(sorted, keep);
            && after <= before
            && |after| == (if |before| < keep then |before| else keep)
            && forall kept, gone | kept in after && gone in before - after :: Less(gone, kept)
  {
    hide *;
    var after := set r | r in sorted && r !in Doomed(sorted, keep);
    KeptAreLast(sorted, keep, after);
    AscendingSize(sorted);
    assert (set r | r in sorted) == before;
    forall kept, gone | kept in after && gone in before - after
      ensures Less(gone, kept)
    {
      DoomedAreLess(sorted, keep, kept, gone);
    }
  }

  lemma DoomedAreLess(sorted: seq<Id>, keep: nat, kept: Id, gone: Id)
    requires Ascending(sorted) && gone in Doomed(sorted, keep) && kept in sorted[|Doomed(sorted, keep)|..]
    ensures Less(gone, kept)
  {
    hide Less;
    var cut := |Doomed(sorted, keep)|;
    var j :| 0 <= j < |sorted[cut..]| && sorted[cut..][j] == kept;
    var i :| 0 <= i < cut && Doomed(sorted, keep)[i] == gone;
    assert Less(sorted[i], sorted[cut + j]);
  }

  lemma KeptAreLast(sorted: seq<Id>, keep: nat, after: set<Id>)
    requires Ascending(sorted)
    requires after == set r | r in sorted && r !in Doomed(sorted, keep)
    ensures |after| == if |sorted| < keep then |sorted| else keep
    ensures forall kept | kept in after :: kept in sorted[|Doomed(sorted, keep)|..]
  {
    var cut := |Doomed(sorted, keep)|;
    var last := sorted[cut..];
    assert forall i | 0 <= i < cut :: sorted[i] == Doomed(sorted, keep)[i];
    forall i | cut <= i < |sorted|
      ensures sorted[i] in last && sorted[i] !in Doomed(sorted, keep)
    {
      assert last[i - cut] == sorted[i];
      forall k | 0 <= k < cut
        ensures Doomed(sorted, keep)[k] != sorted[i]
      {
        assert Less(sorted[k], sorted[i]);
        LessTotal(sorted[i], sorted[i]);
      }
    }
    assert forall r <- last :: r in sorted;
    assert after == set r | r in last;
    AscendingSize(last);
  }

  // ---- The number of releases kept ------------------------------------------------------------

  function Distance(a: int, b: int): nat {
    if a < b then b - a else a - b
  }

  /** Of the numbers from 2 to 20 the one nearest to the request, and 5 without a request. */
  lemma KeptIsNearest(requested: Option<nat>)
    ensures requested == None ==> KeepOf(requested) == 5
    ensures requested.Some? && 2 <= requested.value <= 20 ==> KeepOf(requested) == requested.value
    ensures 2 <= KeepOf(requested) <= 20
    ensures requested.Some? ==>
              forall k | 2 <= k <= 20 :: Distance(KeepOf(requested), requested.value) <= Distance(k, requested.value)
  {
  }

  /**
   After a successful deploy of a new release, with every removal possible, exactly the greatest of the n + 1
   releases remain: as many as requested if that is a number from 2 to 20, 5 if none is requested, and 2 or 20 if
   the number is below or above; all of them if there are fewer.
   */
  lemma {:induction false} DeployKeepsRequested(site: Site, id: Id, requested: Option<nat>, readDir: set<Id> -> seq<Id>)
    requires Lists(readDir) && id !in site.releases
    ensures var before, n := site.releases + {id}, |site.releases| + 1;
            var after := Last(site, OpTrace(site, Deploy(id, Deployed, requested, {}), readDir)).releases;
            && after <= before && (forall kept, gone | kept in after && gone in before - after :: Less(gone, kept))
            && (requested == None ==> |after| == if n < 5 then n else 5)
            && (forall k: nat :: requested == Some(k) && 2 <= k <= 20 ==> |after| == if n < k then n else k)
            && (forall k: nat :: requested == Some(k) && k < 2 ==> |after| == if n < 2 then n else 2)
            && (forall k: nat :: requested == Some(k) && k > 20 ==> |after| == if n < 20 then n else 20)
  {
    var keep := KeepOf(requested);
    assert OpTrace(site, Deploy(id, Deployed, requested, {}), readDir) ==
           DeployTrace(site, id, Deployed, keep, {}, readDir);
    KeptIsNearest(requested);
    BelowAndAbove(requested);
    hide *;
    DeployKeepsGreatest(site, id, keep, readDir);
  }

  lemma {:induction false} KeptByDeploy(site: Site, id: Id, requested: Option<nat>, stuck: set<Id>,
                                        readDir: set<Id> -> seq<Id>)
    ensures Lists(readDir) && id !in site.releases && stuck == {} ==>
              var after := Last(site, DeployTrace(site, id, Deployed, KeepOf(requested), stuck, readDir)).releases;
              KeptAsRequested(|site.releases| + 1, |after|, requested)
  {
    KeptIsNearest(requested);
    BelowAndAbove(requested);
    hide Lists, DeployTrace, KeepOf, Last, Less;
    if Lists(readDir) && id !in site.releases && stuck == {} {
      DeployKeepsGreatest(site, id, KeepOf(requested), readDir);
    }
  }

  lemma BelowAndAbove(requested: Option<nat>)
    ensures requested.Some? && requested.value < 2 ==> KeepOf(requested) == 2
    ensures requested.Some? && requested.value > 20 ==> KeepOf(requested) == 20
  {
  }

  // ---- How a deploy can end ------------------------------------------------------------------------

  /**
   Only a deploy that succeeds moves the link, to its own release. One that fails leaves the releases as they were
   if it got no clone, or if it cleaned up after itself; else it leaves its own beside them.
   */
  lemma {:induction false} DeployEnds(site: Site, id: Id, outcome: Outcome, keep: nat, stuck: set<Id>,
                                      readDir: set<Id> -> seq<Id>)
    requires id !in site.releases
    ensures var end := Last(site, DeployTrace(site, id, outcome, keep, stuck, readDir));
            && end.current == (if outcome.Deployed? then Some(id) else site.current)
            && (outcome in {KeyRejected, CloneTimedOut(false), CloneFailed(true), ScriptFailed(true)} ==>
                  end.releases == site.releases)
            && (outcome in {CloneTimedOut(true), CloneFailed(false), ScriptTimedOut,
                            ScriptFailed(false), SwapFailed} ==>
                  end.releases == site.releases + {id})
  {
    if outcome.Deployed? {
      var swapped := Site(site.releases + {id}, Some(id));
      var pruned := RemoveTrace(swapped, Doomed(Sort(readDir(swapped.releases)), keep), stuck);
      DeployedTrace(site, id, keep, stuck, readDir, pruned);
      hide Sort, Doomed;
      RemoveKeepsExactly(swapped, Doomed(Sort(readDir(swapped.releases)), keep), stuck, id);
    }
  }

  /** The link is moved exactly to an existing release named by one to twenty digits, if the file system lets it. */
  lemma ActivationExactly(site: Site, id: string, swapped: bool)
    ensures var end := Last(site, ActivateTrace(site, id, swapped));
            && end.releases == site.releases
            && end.current ==
                 if 1 <= |id| <= 20 && (forall i | 0 <= i < |id| :: 48 <= id[i] as int <= 57)
                    && id in site.releases && swapped
                 then Some(id) else site.current
  {
  }

  // ---- Why rollbacks must not overlap with pruning ------------------------------------------

  /**
   If a rollback to `id` slips in while `olds` are still to be removed, `current` survives the
   pruning if and only if `id` is not among them, or resists removal.
   */
  lemma {:induction false} RollbackDuringPrune(site: Site, id: Id, olds: seq<Id>, stuck: set<Id>)
    requires ValidId(id) && id in site.releases
    ensures var activated := Last(site, ActivateTrace(site, id, true));
            Safe(Last(activated, RemoveTrace(activated, olds, stuck))) <==> id !in olds || id in stuck
  {
    var activated := site.(current := Some(id));
    assert Last(site, ActivateTrace(site, id, true)) == activated;
    RemoveKeepsExactly(activated, olds, stuck, id);
  }

  lemma {:induction false} RemoveKeepsExactly(site: Site, olds: seq<Id>, stuck: set<Id>, id: Id)
    ensures var last := Last(site, RemoveTrace(site, olds, stuck));
            last.current == site.current &&
              (id in last.releases <==> id in site.releases && (id !in olds || id in stuck))
    decreases |olds|
  {
    if olds == [] {
    } else {
      var next := Without(site, olds[0], stuck);
      RemoveKeepsExactly(next, olds[1..], stuck, id);
      assert olds == [olds[0]] + olds[1..];
    }
  }

  // ---- Rollbacks at any moment of a deploy -----------------------------------------------------

  /**
   One change of the disk: by a deploy, or by the rename of a rollback, whose check that the release exists comes
   earlier. `Stay` is a removal that the file system refuses.
   */
  datatype Change = Create(id: Id) | Delete(id: Id) | Stay | Swap(id: Id) | Relink(id: Id)

  function Changed(site: Site, c: Change): Site {
    match c
    case Create(id) => site.(releases := site.releases + {id})
    case Delete(id) => site.(releases := site.releases - {id})
    case Stay => site
    case Swap(id) => site.(current := Some(id))
    case Relink(id) => site.(current := Some(id))
  }

  function Trace(site: Site, cs: seq<Change>): seq<Site>
    decreases |cs|
  {
    if cs == [] then [] else [Changed(site, cs[0])] + Trace(Changed(site, cs[0]), cs[1..])
  }

  function Removals(olds: seq<Id>, stuck: set<Id>): seq<Change> {
    if olds == [] then []
    else [if olds[0] in stuck then Stay else Delete(olds[0])] + Removals(olds[1..], stuck)
  }

  /** The changes that a deploy makes. */
  function Changes(releases: set<Id>, id: Id, outcome: Outcome, keep: nat, stuck: set<Id>,
                   readDir: set<Id> -> seq<Id>): seq<Change>
  {
    match outcome
    case KeyRejected => []
    case CloneTimedOut(partial) => if partial then [Create(id)] else []
    case CloneFailed(cleaned) => if cleaned then [Create(id), Delete(id)] else [Create(id)]
    case ScriptTimedOut => [Create(id)]
    case ScriptFailed(cleaned) => if cleaned then [Create(id), Delete(id)] else [Create(id)]
    case SwapFailed => [Create(id)]
    case Deployed => [Create(id), Swap(id)] + Removals(Doomed(Sort(readDir(releases + {id})), keep), stuck)
  }

  lemma {:induction false} RemovalsTrace(site: Site, olds: seq<Id>, stuck: set<Id>)
    ensures Trace(site, Removals(olds, stuck)) == RemoveTrace(site, olds, stuck)
    decreases |olds|
  {
    if olds == [] {
    } else {
      RemovalsTrace(Without(site, olds[0], stuck), olds[1..], stuck);
      assert Removals(olds, stuck)[1..] == Removals(olds[1..], stuck);
    }
  }

  lemma TraceCons(site: Site, c: Change, cs: seq<Change>)
    ensures Trace(site, [c] + cs) == [Changed(site, c)] + Trace(Changed(site, c), cs)
  {
    hide Changed;
    assert ([c] + cs)[1..] == cs;
  }

  lemma TraceTwo(site: Site, c: Change, d: Change, cs: seq<Change>)
    ensures var one, two := Changed(site, c), Changed(Changed(site, c), d);
            Trace(site, [c, d] + cs) == [one, two] + Trace(two, cs)
  {
    hide Changed;
    assert [c, d] + cs == [c] + ([d] + cs);
    TraceCons(site, c, [d] + cs);
    TraceCons(Changed(site, c), d, cs);
    hide *;
  }

  /** These changes take a deploy through exactly its states. */
  lemma {:induction false} ChangesTrace(site: Site, id: Id, outcome: Outcome, keep: nat, stuck: set<Id>,
                                        readDir: set<Id> -> seq<Id>)
    ensures Trace(site, Changes(site.releases, id, outcome, keep, stuck, readDir))
         == DeployTrace(site, id, outcome, keep, stuck, readDir)
  {
    hide Doomed, Sort, Trace, Removals, RemoveTrace;
    assert [Create(id), Delete(id)] + [] == [Create(id), Delete(id)] && [Create(id)] + [] == [Create(id)];
    NoTrace(site);
    NoTrace(Changed(site, Create(id)));
    NoTrace(Changed(Changed(site, Create(id)), Delete(id)));
    TraceCons(site, Create(id), []);
    TraceTwo(site, Create(id), Delete(id), []);
    if outcome.Deployed? {
      var olds := Doomed(Sort(readDir(site.releases + {id})), keep);
      var swapped := Site(site.releases + {id}, Some(id));
      TraceTwo(site, Create(id), Swap(id), Removals(olds, stuck));
      RemovalsTrace(swapped, olds, stuck);
    }
  }

  lemma NoTrace(site: Site)
    ensures Trace(site, []) == []
  {
  }

  function WithoutRelinks(cs: seq<Change>): seq<Change> {
    if cs == [] then []
    else if cs[0].Relink? then WithoutRelinks(cs[1..])
    else [cs[0]] + WithoutRelinks(cs[1..])
  }

  /** A release is removed before the link is set again. */
  predicate Orphaned(cs: seq<Change>, id: Id) {
    cs != [] &&
    match cs[0]
    case Delete(x) => x == id || Orphaned(cs[1..], id)
    case Swap(_) => false
    case Relink(_) => false
    case _ => Orphaned(cs[1..], id)
  }

  /** Every release that a rollback links is there, and is not removed before the link is set again. */
  predicate RelinksKept(site: Site, cs: seq<Change>)
    decreases |cs|
  {
    cs == [] ||
    (&& (cs[0].Relink? ==> cs[0].id in site.releases && !Orphaned(cs[1..], cs[0].id))
     && RelinksKept(Changed(site, cs[0]), cs[1..]))
  }

  lemma AllSafeCons(s: Site, trace: seq<Site>)
    ensures AllSafe([s] + trace) <==> Safe(s) && AllSafe(trace)
  {
    hide Safe;
    assert forall i | 0 <= i < |trace| :: ([s] + trace)[i + 1] == trace[i];
    assert ([s] + trace)[0] == s;
  }

  lemma AllSafeTrace(site: Site, cs: seq<Change>)
    requires cs != []
    ensures AllSafe(Trace(site, cs)) <==> Safe(Changed(site, cs[0])) && AllSafe(Trace(Changed(site, cs[0]), cs[1..]))
  {
    hide Safe, Changed, AllSafe;
    AllSafeCons(Changed(site, cs[0]), Trace(Changed(site, cs[0]), cs[1..]));
  }

  /** Without the rollbacks: the same changes, except that theirs are not made. */
  lemma {:induction false} BaseStep(base: Site, cs: seq<Change>)
    requires cs != [] && AllSafe(Trace(base, WithoutRelinks(cs)))
    ensures cs[0].Relink? ==> AllSafe(Trace(base, WithoutRelinks(cs[1..])))
    ensures !cs[0].Relink? ==>
            Safe(Changed(base, cs[0])) && AllSafe(Trace(Changed(base, cs[0]), WithoutRelinks(cs[1..])))
  {
    if !cs[0].Relink? {
      hide Safe, Changed, AllSafe;
      TraceCons(base, cs[0], WithoutRelinks(cs[1..]));
      AllSafeCons(Changed(base, cs[0]), Trace(Changed(base, cs[0]), WithoutRelinks(cs[1..])));
    }
  }

  /** What is current in a safe run is not removed before the link is set again. */
  lemma {:induction false} BaseNotOrphaned(base: Site, cs: seq<Change>, id: Id)
    requires base.current == Some(id) && AllSafe(Trace(base, WithoutRelinks(cs)))
    ensures !Orphaned(cs, id)
    decreases |cs|
  {
    if cs == [] || cs[0].Swap? || cs[0].Relink? {
    } else {
      hide AllSafe, Trace, WithoutRelinks;
      BaseStep(base, cs);
      BaseNotOrphaned(Changed(base, cs[0]), cs[1..], id);
    }
  }

  /** The site with rollbacks and the one without have the same releases; their links differ after a rollback only. */
  predicate Beside(site: Site, base: Site) {
    site.releases == base.releases && Safe(site) && (site.current != base.current ==> site.current.Some?)
  }

  lemma {:induction false} BesideExactly(site: Site, base: Site, cs: seq<Change>)
    requires Beside(site, base) && AllSafe(Trace(base, WithoutRelinks(cs)))
    ensures AllSafe(Trace(site, cs)) <==>
              (site.current != base.current ==> !Orphaned(cs, site.current.value)) && RelinksKept(site, cs)
    decreases |cs|
  {
    if cs == [] {
    } else {
      var c, next := cs[0], Changed(site, cs[0]);
      hide AllSafe, Trace, WithoutRelinks;
      BaseStep(base, cs);
      AllSafeTrace(site, cs);
      if !Safe(next) {
      } else if c.Relink? {
        BesideExactly(next, base, cs[1..]);
        if next.current == base.current {
          BaseNotOrphaned(base, cs[1..], c.id);
        }
      } else {
        BesideExactly(next, Changed(base, c), cs[1..]);
      }
    }
  }

  /** The changes of deploys one after another. */
  function RunChanges(site: Site, ops: seq<Op>, readDir: set<Id> -> seq<Id>): seq<Change>
    decreases |ops|
  {
    if ops == [] then []
    else
      match ops[0]
      case Deploy(id, outcome, requested, stuck) =>
        Changes(site.releases, id, outcome, KeepOf(requested), stuck, readDir)
        + RunChanges(Last(site, OpTrace(site, ops[0], readDir)), ops[1..], readDir)
      case Activate(_, _) => RunChanges(site, ops[1..], readDir)
  }

  predicate OnlyDeploys(ops: seq<Op>) {
    forall i | 0 <= i < |ops| :: ops[i].Deploy?
  }

  lemma {:induction false} TraceAppend(site: Site, a: seq<Change>, b: seq<Change>)
    ensures Trace(site, a + b) == Trace(site, a) + Trace(Last(site, Trace(site, a)), b)
    decreases |a|
  {
    if a == [] {
      assert a + b == b;
    } else {
      var next := Changed(site, a[0]);
      assert (a + b)[1..] == a[1..] + b;
      TraceAppend(next, a[1..], b);
      hide Changed;
      assert Last(site, Trace(site, a)) == Last(next, Trace(next, a[1..]));
    }
  }

  lemma {:induction false} RunChangesTrace(site: Site, ops: seq<Op>, readDir: set<Id> -> seq<Id>)
    requires OnlyDeploys(ops)
    ensures Trace(site, RunChanges(site, ops, readDir)) == RunTrace(site, ops, readDir)
    decreases |ops|
  {
    if ops == [] {
    } else {
      assert ops[0].Deploy?;
      match ops[0]
      case Deploy(id, outcome, requested, stuck) =>
        var steps := OpTrace(site, ops[0], readDir);
        RunChangesTrace(Last(site, steps), ops[1..], readDir);
        ChangesTrace(site, id, outcome, KeepOf(requested), stuck, readDir);
        hide Changes, DeployTrace, Trace;
        TraceAppend(site, Changes(site.releases, id, outcome, KeepOf(requested), stuck, readDir),
                    RunChanges(Last(site, steps), ops[1..], readDir));
    }
  }

  /**
   Deploys in different seconds with rollbacks that link any release between any two changes of the disk: `current`
   names an existing release in every state if and only if every release linked by a rollback is there and is not
   removed, by the cleaning up of a failed deploy or by pruning, before the link is set again.
   */
  lemma {:induction false} InterleavedSafeExactly(site: Site, ops: seq<Op>, readDir: set<Id> -> seq<Id>, newest: Id,
                                                  cs: seq<Change>)
    requires Lists(readDir) && Safe(site) && UpTo(site, newest) && Increasing(newest, ops) && OnlyDeploys(ops)
    requires WithoutRelinks(cs) == RunChanges(site, ops, readDir)
    ensures AllSafe(Trace(site, cs)) <==> RelinksKept(site, cs)
  {
    assert Beside(site, site);
    hide *;
    RunSafe(site, ops, readDir, newest);
    RunChangesTrace(site, ops, readDir);
    BesideExactly(site, site, cs);
  }

  // ---- One rollback in the middle of one deploy ---------------------------------------------------

  /** Changes of deploys only. */
  predicate NoRelinks(cs: seq<Change>) {
    forall i | 0 <= i < |cs| :: !cs[i].Relink?
  }

  lemma {:induction false} WithoutNone(cs: seq<Change>)
    requires NoRelinks(cs)
    ensures WithoutRelinks(cs) == cs
  {
    if cs == [] {
    } else {
      assert !cs[0].Relink?;
      WithoutNone(cs[1..]);
    }
  }

  lemma {:induction false} WithoutOne(a: seq<Change>, id: Id, b: seq<Change>)
    requires NoRelinks(a) && NoRelinks(b)
    ensures WithoutRelinks(a + ([Relink(id)] + b)) == a + b
  {
    if a == [] {
      assert a + ([Relink(id)] + b) == [Relink(id)] + b && a + b == b;
      assert ([Relink(id)] + b)[1..] == b;
      WithoutNone(b);
    } else {
      assert !a[0].Relink?;
      assert (a + ([Relink(id)] + b))[1..] == a[1..] + ([Relink(id)] + b);
      WithoutOne(a[1..], id, b);
      assert a + b == [a[0]] + (a[1..] + b);
    }
  }

  lemma {:induction false} KeptWithNone(site: Site, cs: seq<Change>)
    requires NoRelinks(cs)
    ensures RelinksKept(site, cs)
    decreases |cs|
  {
    if cs == [] {
    } else {
      assert !cs[0].Relink?;
      hide Changed, Orphaned;
      KeptWithNone(Changed(site, cs[0]), cs[1..]);
    }
  }

  /** The releases after some changes. */
  function After(releases: set<Id>, cs: seq<Change>): set<Id>
    decreases |cs|
  {
    if cs == [] then releases
    else
      After(match cs[0] {
              case Create(id) => releases + {id}
              case Delete(id) => releases - {id}
              case _ => releases
            }, cs[1..])
  }

  lemma {:induction false} KeptWithOne(site: Site, a: seq<Change>, id: Id, b: seq<Change>)
    requires NoRelinks(a) && NoRelinks(b)
    ensures RelinksKept(site, a + ([Relink(id)] + b)) <==> id in After(site.releases, a) && !Orphaned(b, id)
    decreases |a|
  {
    hide Orphaned;
    if a == [] {
      assert a + ([Relink(id)] + b) == [Relink(id)] + b && ([Relink(id)] + b)[1..] == b;
      KeptWithNone(Changed(site, Relink(id)), b);
    } else {
      assert !a[0].Relink?;
      assert (a + ([Relink(id)] + b))[1..] == a[1..] + ([Relink(id)] + b);
      KeptWithOne(Changed(site, a[0]), a[1..], id, b);
    }
  }

  lemma {:induction false} RemovalsAppend(a: seq<Id>, b: seq<Id>, stuck: set<Id>)
    ensures Removals(a + b, stuck) == Removals(a, stuck) + Removals(b, stuck) && |Removals(a, stuck)| == |a|
  {
    if a == [] {
      assert a + b == b;
    } else {
      assert (a + b)[1..] == a[1..] + b;
      RemovalsAppend(a[1..], b, stuck);
    }
  }

  lemma {:induction false} RemovalsSlice(olds: seq<Id>, stuck: set<Id>, k: nat)
    requires k <= |olds|
    ensures |Removals(olds, stuck)| == |olds|
    ensures Removals(olds, stuck)[..k] == Removals(olds[..k], stuck) &&
            Removals(olds, stuck)[k..] == Removals(olds[k..], stuck)
  {
    hide *;
    RemovalsAppend(olds[..k], olds[k..], stuck);
    RemovalsAppend(olds[k..], [], stuck);
    assert olds == olds[..k] + olds[k..];
  }

  lemma {:induction false} RemovalsOrphan(olds: seq<Id>, stuck: set<Id>, id: Id)
    ensures Orphaned(Removals(olds, stuck), id) <==> id in olds && id !in stuck
    ensures NoRelinks(Removals(olds, stuck))
  {
    if olds == [] {
    } else {
      RemovalsOrphan(olds[1..], stuck, id);
      assert olds == [olds[0]] + olds[1..];
      assert Removals(olds, stuck)[1..] == Removals(olds[1..], stuck);
    }
  }

  lemma {:induction false} RemovalsLeave(releases: set<Id>, olds: seq<Id>, stuck: set<Id>, id: Id)
    ensures id in After(releases, Removals(olds, stuck)) <==> id in releases && (id !in olds || id in stuck)
    decreases |olds|
  {
    if olds == [] {
    } else {
      RemovalsLeave(if olds[0] in stuck then releases else releases - {olds[0]}, olds[1..], stuck, id);
      assert olds == [olds[0]] + olds[1..];
      assert Removals(olds, stuck)[1..] == Removals(olds[1..], stuck);
    }
  }

  /** A deploy that fails and removes its own release again. */
  predicate CleanedUp(outcome: Outcome) {
    (outcome.CloneFailed? && outcome.cleaned) || (outcome.ScriptFailed? && outcome.cleaned)
  }

  lemma {:induction false} PruneSlices(releases: set<Id>, id: Id, olds: seq<Id>, stuck: set<Id>, k: nat, r: Id)
    requires 2 <= k <= 2 + |olds|
    ensures var cs := [Create(id), Swap(id)] + Removals(olds, stuck);
            && |cs| == 2 + |olds|
            && (r in After(releases, cs[..k]) <==> r in releases + {id} && (r !in olds[..k - 2] || r in stuck))
            && (Orphaned(cs[k..], r) <==> r in olds[k - 2..] && r !in stuck)
  {
    var cs := [Create(id), Swap(id)] + Removals(olds, stuck);
    RemovalsSlice(olds, stuck, k - 2);
    assert cs[..k] == [Create(id), Swap(id)] + Removals(olds, stuck)[..k - 2] &&
           cs[k..] == Removals(olds, stuck)[k - 2..];
    RemovalsOrphan(olds[k - 2..], stuck, r);
    RemovalsLeave(releases + {id}, olds[..k - 2], stuck, r);
    AfterTwo(releases, id, Removals(olds[..k - 2], stuck));
    hide *;
  }

  lemma {:induction false} AfterTwo(releases: set<Id>, id: Id, cs: seq<Change>)
    ensures After(releases, [Create(id), Swap(id)] + cs) == After(releases + {id}, cs)
  {
    assert ([Create(id), Swap(id)] + cs)[1..] == [Swap(id)] + cs;
    assert ([Swap(id)] + cs)[1..] == cs;
    assert After(releases, [Create(id), Swap(id)] + cs) == After(releases + {id}, [Swap(id)] + cs);
  }

  lemma {:induction false} EarlyInPrune(releases: set<Id>, id: Id, more: seq<Change>, k: nat, r: Id)
    requires k < 2
    ensures var cs := [Create(id), Swap(id)] + more;
            && !Orphaned(cs[k..], r)
            && (r in After(releases, cs[..k]) <==> r in releases || (k == 1 && r == id))
  {
    var cs := [Create(id), Swap(id)] + more;
    assert cs[1..] == [Swap(id)] + more && !Orphaned(cs[1..], r);
    if k == 0 {
      assert cs[0..] == cs && cs[..0] == [];
    } else {
      assert cs[..1] == [Create(id)] && [Create(id)][1..] == [];
      assert After(releases, [Create(id)]) == After(releases + {id}, []);
    }
  }

  lemma SplitIn(olds: seq<Id>, k: nat, r: Id)
    requires k <= |olds|
    ensures r in olds <==> r in olds[..k] || r in olds[k..]
  {
    assert olds == olds[..k] + olds[k..];
  }

  /**
   For a successful deploy: the linked release survives unless the link is set after the swap and pruning
   removes it.
   */
  lemma {:induction false} DuringPrune(releases: set<Id>, id: Id, olds: seq<Id>, stuck: set<Id>, j: nat, k: nat, r: Id)
    requires j <= k <= 2 + |olds|
    requires |Removals(olds, stuck)| == |olds|
    requires r in After(releases, ([Create(id), Swap(id)] + Removals(olds, stuck))[..j])
    ensures var cs := [Create(id), Swap(id)] + Removals(olds, stuck);
            r in After(releases, cs[..k]) && !Orphaned(cs[k..], r) <==> !(k >= 2 && r in olds && r !in stuck)
  {
    hide *;
    if j < 2 {
      EarlyInPrune(releases, id, Removals(olds, stuck), j, r);
    } else {
      PruneSlices(releases, id, olds, stuck, j, r);
    }
    if k < 2 {
      EarlyInPrune(releases, id, Removals(olds, stuck), k, r);
    } else {
      PruneSlices(releases, id, olds, stuck, k, r);
      SplitIn(olds, k - 2, r);
    }
  }

  lemma {:induction false} AfterCons(releases: set<Id>, c: Change, cs: seq<Change>)
    ensures After(releases, [c] + cs) ==
              After(match c {
                      case Create(id) => releases + {id}
                      case Delete(id) => releases - {id}
                      case _ => releases
                    }, cs)
    ensures After(releases, []) == releases
  {
    assert ([c] + cs)[1..] == cs;
  }

  lemma {:induction false} OrphanedCons(c: Change, cs: seq<Change>, r: Id)
    ensures Orphaned([c] + cs, r) <==>
              match c
              case Delete(x) => x == r || Orphaned(cs, r)
              case Swap(_) => false
              case Relink(_) => false
              case _ => Orphaned(cs, r)
    ensures !Orphaned([], r)
  {
    assert ([c] + cs)[1..] == cs;
  }

  lemma {:induction false} CleaningUp(releases: set<Id>, id: Id, k: nat, r: Id)
    requires k <= 2
    ensures var cs := [Create(id), Delete(id)];
            && After(releases, cs[..k]) ==
               (if k == 1 then releases + {id} else if k == 2 then releases + {id} - {id} else releases)
            && (Orphaned(cs[k..], r) <==> k < 2 && r == id)
  {
    hide *;
    var cs := [Create(id), Delete(id)];
    assert cs == [Create(id)] + ([Delete(id)] + []);
    AfterCons(releases, Create(id), [Delete(id)] + []);
    AfterCons(releases, Create(id), []);
    AfterCons(releases + {id}, Delete(id), []);
    OrphanedCons(Create(id), [Delete(id)] + [], r);
    OrphanedCons(Delete(id), [], r);
    assert cs[..0] == [] && cs[..1] == [Create(id)] + [] && cs[..2] == cs;
    assert cs[0..] == cs && cs[1..] == [Delete(id)] + [] && cs[2..] == [];
    AfterCons(releases + {id} - {id}, Delete(id), []);
  }

  lemma {:induction false} LeavingBehind(releases: set<Id>, id: Id, k: nat, r: Id)
    requires k <= 1
    ensures var cs := [Create(id)];
            After(releases, cs[..k]) == (if k == 1 then releases + {id} else releases) && !Orphaned(cs[k..], r)
  {
    hide *;
    var cs := [Create(id)];
    assert cs == [Create(id)] + [];
    AfterCons(releases, Create(id), []);
    AfterCons(releases + {id}, Create(id), []);
    OrphanedCons(Create(id), [], r);
    assert cs[..0] == [] && cs[..1] == cs && cs[0..] == cs && cs[1..] == [];
  }

  /**
   For a failed deploy: the linked release survives unless it is the new one and the deploy cleans up after
   itself.
   */
  lemma {:induction false} DuringFailure(releases: set<Id>, id: Id, cs: seq<Change>, j: nat, k: nat, r: Id)
    requires cs == [] || cs == [Create(id)] || cs == [Create(id), Delete(id)]
    requires j <= k <= |cs| && id !in releases && r in After(releases, cs[..j])
    ensures r in After(releases, cs[..k]) && !Orphaned(cs[k..], r) <==> !(|cs| == 2 && r == id)
  {
    hide *;
    if |cs| == 2 {
      CleaningUp(releases, id, j, r);
      CleaningUp(releases, id, k, r);
    } else if |cs| == 1 {
      LeavingBehind(releases, id, j, r);
      LeavingBehind(releases, id, k, r);
    } else {
      OrphanedCons(Stay, [], r);
      assert cs[..j] == cs[..k] == cs[k..] == [];
    }
  }

  lemma {:induction false} ChangesForm(releases: set<Id>, id: Id, outcome: Outcome, keep: nat, stuck: set<Id>,
                                       readDir: set<Id> -> seq<Id>)
    ensures var cs, olds := Changes(releases, id, outcome, keep, stuck, readDir),
            Doomed(Sort(readDir(releases + {id})), keep);
            && (outcome.Deployed? ==> cs == [Create(id), Swap(id)] + Removals(olds, stuck))
            && (!outcome.Deployed? ==> cs == [] || cs == [Create(id)] || cs == [Create(id), Delete(id)])
            && (!outcome.Deployed? ==> (|cs| == 2 <==> CleanedUp(outcome)))
            && NoRelinks(cs) && |Removals(olds, stuck)| == |olds|
  {
    var olds := Doomed(Sort(readDir(releases + {id})), keep);
    RemovalsOrphan(olds, stuck, id);
    RemovalsSlice(olds, stuck, 0);
    hide Doomed, Sort, Removals;
  }

  lemma {:induction false} NoRelinksParts(cs: seq<Change>, k: nat)
    requires NoRelinks(cs) && k <= |cs|
    ensures NoRelinks(cs[..k]) && NoRelinks(cs[k..]) && cs == cs[..k] + cs[k..]
  {
  }

  lemma {:induction false} DeployAlone(site: Site, id: Id, outcome: Outcome, keep: nat, stuck: set<Id>,
                                       readDir: set<Id> -> seq<Id>, newest: Id)
    requires Lists(readDir) && Safe(site) && UpTo(site, newest) && Less(newest, id) && keep > 0
    ensures AllSafe(Trace(site, Changes(site.releases, id, outcome, keep, stuck, readDir)))
    ensures id !in site.releases
  {
    NewId(site, newest, id);
    hide *;
    ChangesTrace(site, id, outcome, keep, stuck, readDir);
    DeploySafe(site, id, outcome, keep, stuck, readDir, newest);
  }

  lemma NewId(site: Site, newest: Id, id: Id)
    requires UpTo(site, newest) && Less(newest, id)
    ensures id !in site.releases
  {
    if id in site.releases {
      LessTotal(id, newest);
    }
  }

  lemma Itself(site: Site)
    requires Safe(site)
    ensures Beside(site, site)
  {
  }

  /**
   A rollback to `r` in the middle of a deploy: its check passes after `j` changes of the deploy, its rename comes after
   `k`. `current` names an existing release in every state unless the rename comes after the swap of a deploy whose
   pruning removes `r`, or `r` is the release of a failing deploy that cleans up after itself.
   */
  lemma {:induction false} RollbackInDeployExactly(site: Site, id: Id, outcome: Outcome, keep: nat, stuck: set<Id>,
                                                   readDir: set<Id> -> seq<Id>, newest: Id, j: nat, k: nat, r: Id)
    requires Lists(readDir) && Safe(site) && UpTo(site, newest) && Less(newest, id) && keep > 0
    requires j <= k <= |Changes(site.releases, id, outcome, keep, stuck, readDir)|
    requires r in After(site.releases, Changes(site.releases, id, outcome, keep, stuck, readDir)[..j])
    ensures var cs := Changes(site.releases, id, outcome, keep, stuck, readDir);
            AllSafe(Trace(site, cs[..k] + ([Relink(r)] + cs[k..]))) <==>
              && !(outcome.Deployed? && k >= 2 && r in Doomed(Sort(readDir(site.releases + {id})), keep) && r !in stuck)
              && !(CleanedUp(outcome) && r == id)
  {
    hide *;
    var cs, olds := Changes(site.releases, id, outcome, keep, stuck, readDir),
        Doomed(Sort(readDir(site.releases + {id})), keep);
    DeployAlone(site, id, outcome, keep, stuck, readDir, newest);
    ChangesForm(site.releases, id, outcome, keep, stuck, readDir);
    NoRelinksParts(cs, k);
    WithoutOne(cs[..k], r, cs[k..]);
    Itself(site);
    BesideExactly(site, site, cs[..k] + ([Relink(r)] + cs[k..]));
    KeptWithOne(site, cs[..k], r, cs[k..]);
    if outcome.Deployed? {
      DuringPrune(site.releases, id, olds, stuck, j, k, r);
      NotCleanedUp(outcome);
    } else {
      DuringFailure(site.releases, id, cs, j, k, r);
    }
  }

  lemma NotCleanedUp(outcome: Outcome)
    requires outcome.Deployed?
    ensures !CleanedUp(outcome)
  {
  }

  // ---- Listing --------------------------------------------------------------------------------

  datatype ReleaseInfo = ReleaseInfo(id: Id, active: bool)

  function Reverse<T>(s: seq<T>): (r: seq<T>)
    ensures |r| == |s| && forall i | 0 <= i < |s| :: r[i] == s[|s| - 1 - i]
  {
    seq(|s|, i requires 0 <= i < |s| => s[|s| - 1 - i])
  }

  /** `list_releases`: newest first, the one that `current` names marked as active. */
  function ListReleases(site: Site, readDir: set<Id> -> seq<Id>): seq<ReleaseInfo> {
    Map((id: Id) => ReleaseInfo(id, site.current == Some(id)), Reverse(Sort(readDir(site.releases))))
  }

  /** The list is strictly descending, complete, and marks exactly the current release. */
  lemma {:induction false} ListingIsExact(site: Site, readDir: set<Id> -> seq<Id>)
    requires Lists(readDir) && Safe(site)
    ensures var infos := ListReleases(site, readDir);
            && (forall i, j | 0 <= i < j < |infos| :: Less(infos[j].id, infos[i].id))
            && (forall r :: r in site.releases <==> exists i | 0 <= i < |infos| :: infos[i].id == r)
            && (forall i | 0 <= i < |infos| :: infos[i].active <==> Some(infos[i].id) == site.current)
            && (site.current.Some? ==> exists i | 0 <= i < |infos| :: infos[i].active)
            && (forall i, j | 0 <= i < |infos| && 0 <= j < |infos| && infos[i].active && infos[j].active :: i == j)
  {
    var listing := readDir(site.releases);
    var sorted := Sort(listing);
    var infos := ListReleases(site, readDir);
    SortAscending(listing);
    forall r
      ensures r in site.releases <==> exists i | 0 <= i < |infos| :: infos[i].id == r
    {
      if r in site.releases {
        assert r in sorted;
        var k :| 0 <= k < |sorted| && sorted[k] == r;
        assert infos[|sorted| - 1 - k].id == r;
      }
      if i :| 0 <= i < |infos| && infos[i].id == r {
        assert r in sorted;
      }
    }
    forall i, j | 0 <= i < j < |infos|
      ensures Less(infos[j].id, infos[i].id) && infos[i].id != infos[j].id
    {
      assert infos[j].id == sorted[|sorted| - 1 - j] && infos[i].id == sorted[|sorted| - 1 - i];
      LessTotal(infos[i].id, infos[j].id);
    }
  }
}
