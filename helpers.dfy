/**
 * The entry records of `src/helpers.ts`, the resolution of raw entries into
 * concrete source/destination pairs, and the clearable memo cache.
 */
module Helpers {
  import opened Wrappers
  import opened Options
  import opened Paths

  /** A registration as `register` stores it: a glob, a target directory and options. */
  datatype RawEntry = RawEntry(from: string, to: string, options: FullOptions)

  /** One matched source file with its destination and the URL it is served under. */
  datatype ResolvedEntry = ResolvedEntry(src: string, dest: string, publicUrl: string, options: FullOptions)

  // ---------------------------------------------------------------------------
  // cacheClearableMemoize
  // ---------------------------------------------------------------------------

  /**
   * A memoized function with an explicit cache: a call with a key already in
   * the cache returns the stored value without computing, any other call
   * computes and stores a successful result (a failure propagates and is not
   * stored), and `cache.clear()` empties the cache. The computation is passed
   * on each call, because what it reads (the file system) changes between
   * calls.
   */
  class Memo<K(==), V> {
    var cache: map<K, V>

    constructor ()
      ensures cache == map[]
    {
      cache := map[];
    }

    method Get(k: K, compute: K -> Result<V, string>) returns (r: Result<V, string>, hit: bool)
      modifies this
      ensures hit == (k in old(cache))
      ensures hit ==> r == Ok(old(cache)[k]) && cache == old(cache)
      ensures !hit ==> r == compute(k)
      ensures !hit ==> cache == if r.Ok? then old(cache)[k := r.value] else old(cache)
    {
      if k in cache {
        r, hit := Ok(cache[k]), true;
      } else {
        r, hit := compute(k), false;
        if r.Ok? {
          cache := cache[k := r.value];
        }
      }
    }

    method Clear()
      modifies this
      ensures cache == map[]
    {
      cache := map[];
    }
  }

  /**
   * Two calls, a clear, two more calls: the second call of each pair is
   * served from the cache, the first after the clear computes again, and
   * every call yields the computed value.
   */
  method ClearScenario<K(==), V>(k: K, f: K -> Result<V, string>) returns (hits: seq<bool>, values: seq<Result<V, string>>)
    requires f(k).Ok?
    ensures hits == [false, true, false, true]
    ensures values == [f(k), f(k), f(k), f(k)]
  {
    var m := new Memo<K, V>();
    var r1, h1 := m.Get(k, f);
    var r2, h2 := m.Get(k, f);
    m.Clear();
    var r3, h3 := m.Get(k, f);
    var r4, h4 := m.Get(k, f);
    hits, values := [h1, h2, h3, h4], [r1, r2, r3, r4];
  }

  /** A failing computation is not cached: the next call computes again. */
  method FailureScenario<K(==), V>(k: K, f: K -> Result<V, string>) returns (hits: seq<bool>)
    requires f(k).Err?
    ensures hits == [false, false]
  {
    var m := new Memo<K, V>();
    var r1, h1 := m.Get(k, f);
    var r2, h2 := m.Get(k, f);
    hits := [h1, h2];
  }

  // ---------------------------------------------------------------------------
  // resolveRawEntry
  // ---------------------------------------------------------------------------

  /** `s.replace(/\\/g, "/")`: every backslash becomes a forward slash. */
  function ReplaceBackslashes(s: string): (r: string)
    ensures |r| == |s|
    ensures forall i :: 0 <= i < |s| && s[i] != '\\' ==> r[i] == s[i]
    ensures forall i :: 0 <= i < |s| && s[i] == '\\' ==> r[i] == '/'
  {
    if s == [] then [] else [if s[0] == '\\' then '/' else s[0]] + ReplaceBackslashes(s[1..])
  }

  /** The URL of a destination: `/` followed by its path below the public directory. */
  function PublicUrl(ps: PathOps, publicDir: string, dest: string): (r: string)
    ensures |r| >= 1 && r[0] == '/'
    ensures '\\' !in r
    ensures r[1..] == ReplaceBackslashes(ps.relative(publicDir, dest))
  {
    var r := "/" + ReplaceBackslashes(ps.relative(publicDir, dest));
    assert forall i :: 0 <= i < |r| ==> r[i] != '\\' by {
      forall i | 1 <= i < |r| ensures r[i] != '\\' {
        assert r[i] == ReplaceBackslashes(ps.relative(publicDir, dest))[i - 1];
      }
    }
    r
  }

  /**
   * Where a matched source goes: flattened, the target directory joined with
   * the source's base name; otherwise the target directory joined with the
   * source's path below the glob's parent directory.
   */
  function Destination(raw: RawEntry, src: string, gs: GlobOps, ps: PathOps): string {
    if raw.options.flatten then ps.resolveFrom(raw.to, ps.basename(src))
    else ps.resolveFrom(raw.to, ps.relative(gs.parent(raw.from), src))
  }

  function ResolveSource(raw: RawEntry, src: string, gs: GlobOps, ps: PathOps, publicDir: string): ResolvedEntry {
    var dest := Destination(raw, src, gs, ps);
    ResolvedEntry(src, dest, PublicUrl(ps, publicDir, dest), raw.options)
  }

  /** The sources a raw entry matches, each normalized. */
  function Sources(raw: RawEntry, gs: GlobOps, ps: PathOps): (r: seq<string>)
    ensures |r| == |gs.glob(raw.from)|
    ensures forall i :: 0 <= i < |r| ==> r[i] == ps.normalize(gs.glob(raw.from)[i])
  {
    var found := gs.glob(raw.from);
    seq(|found|, i requires 0 <= i < |found| => ps.normalize(found[i]))
  }

  /**
   * `resolveRawEntry`: one resolved entry per matched source, in match order,
   * each carrying the raw entry's options unchanged.
   */
  function ResolveRawEntry(raw: RawEntry, gs: GlobOps, ps: PathOps, publicDir: string): (r: seq<ResolvedEntry>)
    ensures |r| == |gs.glob(raw.from)|
    ensures forall i :: 0 <= i < |r| ==> r[i].src == ps.normalize(gs.glob(raw.from)[i])
    ensures forall i :: 0 <= i < |r| ==> r[i].options == raw.options
    ensures forall i :: 0 <= i < |r| && raw.options.flatten ==>
      r[i].dest == ps.resolveFrom(raw.to, ps.basename(r[i].src))
    ensures forall i :: 0 <= i < |r| && !raw.options.flatten ==>
      r[i].dest == ps.resolveFrom(raw.to, ps.relative(gs.parent(raw.from), r[i].src))
    ensures forall i :: 0 <= i < |r| ==>
      |r[i].publicUrl| >= 1 && r[i].publicUrl[0] == '/' && '\\' !in r[i].publicUrl &&
      r[i].publicUrl[1..] == ReplaceBackslashes(ps.relative(publicDir, r[i].dest))
  {
    var srcs := Sources(raw, gs, ps);
    seq(|srcs|, i requires 0 <= i < |srcs| => ResolveSource(raw, srcs[i], gs, ps, publicDir))
  }

  // ---------------------------------------------------------------------------
  // resolveRawEntries
  // ---------------------------------------------------------------------------

  function Flatten<T>(ss: seq<seq<T>>): seq<T> {
    if ss == [] then [] else Flatten(ss[..|ss| - 1]) + ss[|ss| - 1]
  }

  /** Every element of the flattened list comes from one of the lists. */
  lemma {:induction false} FlattenMember<T>(ss: seq<seq<T>>, x: T)
    requires x in Flatten(ss)
    ensures exists k :: 0 <= k < |ss| && x in ss[k]
  {
    if ss != [] {
      var last := |ss| - 1;
      if x in Flatten(ss[..last]) {
        FlattenMember(ss[..last], x);
        var k :| 0 <= k < last && x in ss[..last][k];
        assert ss[k] == ss[..last][k];
      } else {
        assert x in ss[last];
      }
    }
  }

  /** Every element of every list is in the flattened list. */
  lemma {:induction false} MemberFlatten<T>(ss: seq<seq<T>>, k: nat, x: T)
    requires k < |ss| && x in ss[k]
    ensures x in Flatten(ss)
  {
    var last := |ss| - 1;
    if k < last {
      assert ss[..last][k] == ss[k];
      MemberFlatten(ss[..last], k, x);
    }
  }

  function Reverse<T>(s: seq<T>): (r: seq<T>)
    ensures |r| == |s|
    ensures forall i :: 0 <= i < |s| ==> r[i] == s[|s| - 1 - i]
  {
    if s == [] then [] else [s[|s| - 1]] + Reverse(s[..|s| - 1])
  }

  function DestsOf(s: seq<ResolvedEntry>): set<string> {
    set e | e in s :: e.dest
  }

  /**
   * lodash `uniqBy(s, "dest")`: walking the list from the front, an entry is
   * kept when no kept entry has its `dest` yet.
   */
  function UniqByDest(s: seq<ResolvedEntry>): seq<ResolvedEntry> {
    if s == [] then []
    else
      var kept := UniqByDest(s[..|s| - 1]);
      if s[|s| - 1].dest in DestsOf(kept) then kept else kept + [s[|s| - 1]]
  }

  /** Entry `i` of `s` is the first one with its `dest`. */
  ghost predicate FirstWithDest(s: seq<ResolvedEntry>, i: nat)
    requires i < |s|
  {
    forall j :: 0 <= j < i ==> s[j].dest != s[i].dest
  }

  /** Reference definition: the first-with-their-dest entries among the first `n`, in order. */
  ghost function FirstOccurrences(s: seq<ResolvedEntry>, n: nat): seq<ResolvedEntry>
    requires n <= |s|
  {
    if n == 0 then []
    else FirstOccurrences(s, n - 1) + (if FirstWithDest(s, n - 1) then [s[n - 1]] else [])
  }

  /** De-duplication loses no `dest` and invents none. */
  lemma {:induction false} UniqByDestDests(s: seq<ResolvedEntry>)
    ensures DestsOf(UniqByDest(s)) == DestsOf(s)
  {
    if s != [] {
      var init, last := s[..|s| - 1], s[|s| - 1];
      UniqByDestDests(init);
      assert s == init + [last];
      assert DestsOf(s) == DestsOf(init) + {last.dest};
      var kept := UniqByDest(init);
      assert DestsOf(kept + [last]) == DestsOf(kept) + {last.dest};
    }
  }

  /** `uniqBy` keeps exactly the first entry for every `dest`, in input order. */
  lemma {:induction false} UniqByDestIsFirstOccurrences(s: seq<ResolvedEntry>)
    ensures UniqByDest(s) == FirstOccurrences(s, |s|)
  {
    if s != [] {
      var n := |s|;
      var init := s[..n - 1];
      UniqByDestIsFirstOccurrences(init);
      UniqByDestDests(init);
      FirstOccurrencesPrefix(s, n - 1);
      assert init[..|init|] == init;
      assert s[n - 1].dest in DestsOf(init) <==> !FirstWithDest(s, n - 1) by {
        if s[n - 1].dest in DestsOf(init) {
          var e :| e in init && e.dest == s[n - 1].dest;
          var j :| 0 <= j < n - 1 && init[j] == e;
          assert s[j].dest == s[n - 1].dest;
        }
        if !FirstWithDest(s, n - 1) {
          var j :| 0 <= j < n - 1 && s[j].dest == s[n - 1].dest;
          assert init[j] == s[j];
        }
      }
    }
  }

  /** The first occurrences among the first `n` entries only look at those entries. */
  lemma {:induction false} FirstOccurrencesPrefix(s: seq<ResolvedEntry>, n: nat)
    requires n <= |s|
    ensures FirstOccurrences(s[..n], n) == FirstOccurrences(s, n)
  {
    if n > 0 {
      FirstOccurrencesPrefix(s, n - 1);
      FirstOccurrencesExtend(s[..n], s, n - 1);
      assert FirstWithDest(s[..n], n - 1) == FirstWithDest(s, n - 1) by {
        assert forall j :: 0 <= j < n ==> s[..n][j] == s[j];
      }
    }
  }

  /** Two lists that agree on a prefix have the same first occurrences in it. */
  lemma {:induction false} FirstOccurrencesExtend(s: seq<ResolvedEntry>, t: seq<ResolvedEntry>, n: nat)
    requires n <= |s| && n <= |t| && s[..n] == t[..n]
    ensures FirstOccurrences(s, n) == FirstOccurrences(t, n)
  {
    if n > 0 {
      assert s[..n - 1] == t[..n - 1] by {
        assert s[..n - 1] == s[..n][..n - 1];
        assert t[..n - 1] == t[..n][..n - 1];
      }
      FirstOccurrencesExtend(s, t, n - 1);
      assert forall j :: 0 <= j < n ==> s[j] == s[..n][j] == t[..n][j] == t[j];
      assert FirstWithDest(s, n - 1) == FirstWithDest(t, n - 1);
    }
  }

  /** An entry belongs to the first occurrences exactly when it is the first with its `dest`. */
  lemma {:induction false} FirstOccurrencesMembers(s: seq<ResolvedEntry>, n: nat)
    requires n <= |s|
    ensures forall e :: e in FirstOccurrences(s, n) <==> exists i :: 0 <= i < n && s[i] == e && FirstWithDest(s, i)
  {
    if n > 0 {
      FirstOccurrencesMembers(s, n - 1);
    }
  }

  /** No two entries of `s` have the same `dest`. */
  ghost predicate DestsDistinct(s: seq<ResolvedEntry>) {
    forall i, j :: 0 <= i < j < |s| ==> s[i].dest != s[j].dest
  }

  /** The first occurrences among the first `n` entries have pairwise different `dest`s. */
  lemma {:induction false} FirstOccurrencesDistinct(s: seq<ResolvedEntry>, n: nat)
    requires n <= |s|
    ensures DestsDistinct(FirstOccurrences(s, n))
  {
    if n > 0 {
      FirstOccurrencesDistinct(s, n - 1);
      FirstOccurrencesMembers(s, n - 1);
      var prev := FirstOccurrences(s, n - 1);
      if FirstWithDest(s, n - 1) {
        forall i | 0 <= i < |prev| ensures prev[i].dest != s[n - 1].dest {
          assert prev[i] in prev;
          var k :| 0 <= k < n - 1 && s[k] == prev[i] && FirstWithDest(s, k);
        }
        var r := prev + [s[n - 1]];
        forall i, j | 0 <= i < j < |r| ensures r[i].dest != r[j].dest {
          assert r[i] == prev[i];
          if j < |prev| {
            assert r[j] == prev[j];
            assert prev[i].dest != prev[j].dest;
          } else {
            assert r[j] == s[n - 1];
            assert prev[i].dest != s[n - 1].dest;
          }
        }
      }
    }
  }

  /**
   * `resolveRawEntries`: resolve every raw entry, concatenate, reverse, and
   * de-duplicate by `dest`, so that a later entry overrides an earlier one.
   */
  function ResolveRawEntries(raws: seq<RawEntry>, gs: GlobOps, ps: PathOps, publicDir: string): seq<ResolvedEntry> {
    UniqByDest(Reverse(AllResolved(raws, gs, ps, publicDir)))
  }

  /** Every raw entry's resolved entries, in registration order. */
  function AllResolved(raws: seq<RawEntry>, gs: GlobOps, ps: PathOps, publicDir: string): seq<ResolvedEntry> {
    Flatten(seq(|raws|, k requires 0 <= k < |raws| => ResolveRawEntry(raws[k], gs, ps, publicDir)))
  }

  /** Entry `i` of `s` is the last one with its `dest`. */
  ghost predicate LastWithDest(s: seq<ResolvedEntry>, i: nat)
    requires i < |s|
  {
    forall j :: i < j < |s| ==> s[j].dest != s[i].dest
  }

  /** No two resolved entries share a destination. */
  lemma ResolveRawEntriesDistinct(raws: seq<RawEntry>, gs: GlobOps, ps: PathOps, publicDir: string)
    ensures DestsDistinct(ResolveRawEntries(raws, gs, ps, publicDir))
  {
    var rev := Reverse(AllResolved(raws, gs, ps, publicDir));
    UniqByDestIsFirstOccurrences(rev);
    FirstOccurrencesDistinct(rev, |rev|);
  }

  /** Every destination of any resolved entry survives, and none is invented. */
  lemma ResolveRawEntriesDests(raws: seq<RawEntry>, gs: GlobOps, ps: PathOps, publicDir: string)
    ensures DestsOf(ResolveRawEntries(raws, gs, ps, publicDir)) == DestsOf(AllResolved(raws, gs, ps, publicDir))
  {
    var all := AllResolved(raws, gs, ps, publicDir);
    var rev := Reverse(all);
    UniqByDestDests(rev);
    assert forall e :: e in rev <==> e in all by {
      forall e | e in all ensures e in rev {
        var i :| 0 <= i < |all| && all[i] == e;
        assert rev[|all| - 1 - i] == e;
      }
    }
    assert DestsOf(rev) == DestsOf(all);
  }

  /**
   * Each kept entry is one that `resolveRawEntry` produced for one of the raw
   * entries, and it is the LAST resolved entry with its destination.
   */
  lemma ResolveRawEntriesLastWins(raws: seq<RawEntry>, gs: GlobOps, ps: PathOps, publicDir: string, e: ResolvedEntry)
    requires e in ResolveRawEntries(raws, gs, ps, publicDir)
    ensures exists k :: 0 <= k < |raws| && e in ResolveRawEntry(raws[k], gs, ps, publicDir)
    ensures var all := AllResolved(raws, gs, ps, publicDir);
      exists i :: 0 <= i < |all| && all[i] == e && LastWithDest(all, i)
  {
    var all := AllResolved(raws, gs, ps, publicDir);
    var rev := Reverse(all);
    UniqByDestIsFirstOccurrences(rev);
    FirstOccurrencesMembers(rev, |rev|);
    var i :| 0 <= i < |rev| && rev[i] == e && FirstWithDest(rev, i);
    FirstInReverseIsLast(all, rev, i);
    ResolvedComesFromRaw(raws, gs, ps, publicDir, e);
  }

  /** The first entry with a `dest` in the reversed list is the last one with it in the list. */
  lemma FirstInReverseIsLast(all: seq<ResolvedEntry>, rev: seq<ResolvedEntry>, i: nat)
    requires |rev| == |all| && forall k :: 0 <= k < |all| ==> rev[k] == all[|all| - 1 - k]
    requires i < |all| && FirstWithDest(rev, i)
    ensures all[|all| - 1 - i] == rev[i] && LastWithDest(all, |all| - 1 - i)
  {
    var n := |all|;
    forall j | n - 1 - i < j < n ensures all[j].dest != all[n - 1 - i].dest {
      assert rev[n - 1 - j] == all[j];
    }
  }

  /** Every resolved entry comes from resolving one of the raw entries. */
  lemma ResolvedComesFromRaw(raws: seq<RawEntry>, gs: GlobOps, ps: PathOps, publicDir: string, e: ResolvedEntry)
    requires e in AllResolved(raws, gs, ps, publicDir)
    ensures exists k :: 0 <= k < |raws| && e in ResolveRawEntry(raws[k], gs, ps, publicDir)
  {
    var ss := seq(|raws|, k requires 0 <= k < |raws| => ResolveRawEntry(raws[k], gs, ps, publicDir));
    FlattenMember(ss, e);
    var k :| 0 <= k < |ss| && e in ss[k];
    assert e in ResolveRawEntry(raws[k], gs, ps, publicDir);
  }

  /** Conversely, the last resolved entry for each destination is kept. */
  lemma ResolveRawEntriesKeepsLast(raws: seq<RawEntry>, gs: GlobOps, ps: PathOps, publicDir: string, i: nat)
    requires var all := AllResolved(raws, gs, ps, publicDir); i < |all| && LastWithDest(all, i)
    ensures AllResolved(raws, gs, ps, publicDir)[i] in ResolveRawEntries(raws, gs, ps, publicDir)
  {
    var all := AllResolved(raws, gs, ps, publicDir);
    var rev := Reverse(all);
    var n := |all|;
    var m := n - 1 - i;
    assert rev[m] == all[i];
    forall j | 0 <= j < m ensures rev[j].dest != rev[m].dest {
      assert rev[j] == all[n - 1 - j];
    }
    assert FirstWithDest(rev, m);
    UniqByDestIsFirstOccurrences(rev);
    FirstOccurrencesMembers(rev, n);
  }
}
