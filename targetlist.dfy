/**
 * Lists of targets as both `parse_all_makefiles` (src/makefile.rs) and
 * `get_targets` (src/main.rs) build them: per-file lists merged with a
 * `seen_names` set so that the first file declaring a name wins, then
 * sorted by name.
 */
module TargetList {
  import opened Text
  import opened Targets

  function Names(ts: seq<Target>): set<string> {
    set i | 0 <= i < |ts| :: ts[i].name
  }

  predicate DistinctNames(ts: seq<Target>) {
    forall i, j :: 0 <= i < j < |ts| ==> ts[i].name != ts[j].name
  }

  predicate SortedByName(ts: seq<Target>) {
    forall i, j :: 0 <= i < j < |ts| ==> LexLe(ts[i].name, ts[j].name)
  }

  lemma {:induction false} NamesSnoc(ts: seq<Target>, t: Target)
    ensures Names(ts + [t]) == Names(ts) + {t.name}
  {
    assert forall i :: 0 <= i < |ts| ==> (ts + [t])[i] == ts[i];
    assert (ts + [t])[|ts|] == t;
  }

  lemma {:induction false} NamesCons(t: Target, ts: seq<Target>)
    ensures Names([t] + ts) == {t.name} + Names(ts)
  {
    var r := [t] + ts;
    forall n | n in Names(r) ensures n in {t.name} + Names(ts) {
      var i :| 0 <= i < |r| && r[i].name == n;
      if i > 0 { assert ts[i - 1] == r[i]; }
    }
    forall n | n in {t.name} + Names(ts) ensures n in Names(r) {
      if n == t.name {
        assert r[0] == t;
      } else {
        var i :| 0 <= i < |ts| && ts[i].name == n;
        assert r[i + 1] == ts[i];
      }
    }
  }

  /** Dropping the head of a list with distinct names leaves distinct names that avoid the head's. */
  lemma {:induction false} DistinctTail(ts: seq<Target>)
    requires ts != [] && DistinctNames(ts)
    ensures DistinctNames(ts[1..]) && ts[0].name !in Names(ts[1..])
  {
    forall k | 0 <= k < |ts[1..]| ensures ts[1..][k].name != ts[0].name {
      assert ts[1..][k] == ts[k + 1];
    }
  }

  /** Index of the first target called `n`, or `|ts|` when there is none. */
  function FirstIndex(ts: seq<Target>, n: string): (r: nat)
    ensures r <= |ts|
    ensures r < |ts| ==> ts[r].name == n
    ensures forall j :: 0 <= j < r ==> ts[j].name != n
    ensures r == |ts| <==> n !in Names(ts)
  {
    if ts == [] then 0
    else if ts[0].name == n then 0
    else
      var k := FirstIndex(ts[1..], n);
      assert n in Names(ts) ==> n in Names(ts[1..]) by {
        if n in Names(ts) {
          var i :| 0 <= i < |ts| && ts[i].name == n;
          assert ts[1..][i - 1] == ts[i];
        }
      }
      assert n in Names(ts[1..]) ==> n in Names(ts) by {
        if n in Names(ts[1..]) {
          var i :| 0 <= i < |ts[1..]| && ts[1..][i].name == n;
          assert ts[i + 1] == ts[1..][i];
        }
      }
      1 + k
  }

  /** One step of the merge: keep `t` unless its name was seen already. */
  function Step(acc: seq<Target>, t: Target): seq<Target> {
    if t.name in Names(acc) then acc else acc + [t]
  }

  /** `acc` followed by each target of `ts` whose name was not seen before it. */
  function MergeInto(acc: seq<Target>, ts: seq<Target>): seq<Target>
    decreases |ts|
  {
    if ts == [] then acc else Step(MergeInto(acc, ts[..|ts| - 1]), ts[|ts| - 1])
  }

  /** The per-file lists merged in order, the earliest list winning each name. */
  function MergeAll(lists: seq<seq<Target>>): seq<Target>
    decreases |lists|
  {
    if lists == [] then [] else MergeInto(MergeAll(lists[..|lists| - 1]), lists[|lists| - 1])
  }

  /** Merging one more list extends the merge of the earlier ones. */
  lemma MergeAllSnoc(lists: seq<seq<Target>>, ts: seq<Target>)
    ensures MergeAll(lists + [ts]) == MergeInto(MergeAll(lists), ts)
  {
    assert (lists + [ts])[..|lists|] == lists;
  }

  /** All the per-file lists concatenated in order. */
  function Flatten(lists: seq<seq<Target>>): seq<Target>
    decreases |lists|
  {
    if lists == [] then [] else Flatten(lists[..|lists| - 1]) + lists[|lists| - 1]
  }

  /**
   * What the merge loop keeps: the accumulated list stays a prefix, names
   * stay distinct, every name of `ts` ends up present, and each target added
   * is the first one in `ts` with its name.
   */
  lemma {:induction false} MergeIntoSpec(acc: seq<Target>, ts: seq<Target>)
    requires DistinctNames(acc)
    ensures var m := MergeInto(acc, ts);
            && |acc| <= |m| && m[..|acc|] == acc
            && DistinctNames(m)
            && Names(m) == Names(acc) + Names(ts)
            && forall i :: |acc| <= i < |m| ==>
                 m[i].name !in Names(acc) && FirstIndex(ts, m[i].name) < |ts| && m[i] == ts[FirstIndex(ts, m[i].name)]
    decreases |ts|
  {
    if ts != [] {
      var front := ts[..|ts| - 1];
      assert ts == front + [ts[|ts| - 1]];
      MergeIntoSpec(acc, front);
      MergeStep(acc, front, ts[|ts| - 1], MergeInto(acc, front));
    }
  }

  /** One step of the merge loop keeps what `MergeIntoSpec` states. */
  lemma {:induction false} MergeStep(acc: seq<Target>, front: seq<Target>, x: Target, m0: seq<Target>)
    requires |acc| <= |m0| && m0[..|acc|] == acc
    requires DistinctNames(m0)
    requires Names(m0) == Names(acc) + Names(front)
    requires forall i :: |acc| <= i < |m0| ==>
               m0[i].name !in Names(acc) && FirstIndex(front, m0[i].name) < |front| && m0[i] == front[FirstIndex(front, m0[i].name)]
    ensures var m, ts := Step(m0, x), front + [x];
            && |acc| <= |m| && m[..|acc|] == acc
            && DistinctNames(m)
            && Names(m) == Names(acc) + Names(ts)
            && forall i :: |acc| <= i < |m| ==>
                 m[i].name !in Names(acc) && FirstIndex(ts, m[i].name) < |ts| && m[i] == ts[FirstIndex(ts, m[i].name)]
  {
    var ts := front + [x];
    NamesSnoc(front, x);
    if x.name !in Names(m0) {
      var m := m0 + [x];
      NamesSnoc(m0, x);
      FirstIndexSnoc(front, x, x.name);
      forall i | |acc| <= i < |m|
        ensures m[i].name !in Names(acc) && FirstIndex(ts, m[i].name) < |ts| && m[i] == ts[FirstIndex(ts, m[i].name)]
      {
        if i < |m0| {
          assert m[i] == m0[i];
          var k := FirstIndex(front, m0[i].name);
          assert front[k] == m0[i];
          FirstIndexSnoc(front, x, m0[i].name);
        }
      }
      assert m[..|acc|] == m0[..|acc|];
      forall i, j | 0 <= i < j < |m| ensures m[i].name != m[j].name {
        if j == |m0| {
          assert m[i] == m0[i];
        }
      }
    } else {
      forall i | |acc| <= i < |m0|
        ensures FirstIndex(ts, m0[i].name) < |ts| && m0[i] == ts[FirstIndex(ts, m0[i].name)]
      {
        var k := FirstIndex(front, m0[i].name);
        assert front[k] == m0[i];
        FirstIndexSnoc(front, x, m0[i].name);
      }
    }
  }

  /** Appending a target does not move the first position of a name already present. */
  lemma {:induction false} FirstIndexSnoc(front: seq<Target>, x: Target, n: string)
    ensures n in Names(front) ==> FirstIndex(front + [x], n) == FirstIndex(front, n)
    ensures n !in Names(front) && n == x.name ==> FirstIndex(front + [x], n) == |front|
  {
    var ts := front + [x];
    var k := FirstIndex(front, n);
    if k < |front| {
      assert ts[k] == front[k];
    }
    if n !in Names(front) && n == x.name {
      assert ts[|front|] == x;
    }
  }

  /** Merging two lists one after the other is merging their concatenation. */
  lemma {:induction false} MergeIntoAppend(acc: seq<Target>, a: seq<Target>, b: seq<Target>)
    ensures MergeInto(acc, a + b) == MergeInto(MergeInto(acc, a), b)
    decreases |b|
  {
    if b != [] {
      var front := b[..|b| - 1];
      assert (a + b)[..|a + b| - 1] == a + front;
      assert (a + b)[|a + b| - 1] == b[|b| - 1];
      MergeIntoAppend(acc, a, front);
    } else {
      assert a + b == a;
    }
  }

  /** Merging file by file is merging all their targets in discovery order. */
  lemma {:induction false} MergeAllFlatten(lists: seq<seq<Target>>)
    ensures MergeAll(lists) == MergeInto([], Flatten(lists))
    decreases |lists|
  {
    if lists != [] {
      var front := lists[..|lists| - 1];
      MergeAllFlatten(front);
      MergeIntoAppend([], Flatten(front), lists[|lists| - 1]);
    }
  }

  /**
   * The merged list has distinct names, holds every name of every file, and
   * for each name holds the target of the earliest file (and earliest line)
   * that declares it.
   */
  lemma {:induction false} MergeAllSpec(lists: seq<seq<Target>>)
    ensures var m := MergeAll(lists);
            var flat := Flatten(lists);
            && DistinctNames(m)
            && Names(m) == Names(flat)
            && forall i :: 0 <= i < |m| ==> FirstIndex(flat, m[i].name) < |flat| && m[i] == flat[FirstIndex(flat, m[i].name)]
  {
    MergeAllFlatten(lists);
    MergeIntoSpec([], Flatten(lists));
  }

  lemma {:induction false} FlattenSnocPrefix(lists: seq<seq<Target>>, j: nat)
    requires j < |lists|
    ensures Flatten(lists[..j + 1]) == Flatten(lists[..j]) + lists[j]
  {
    assert lists[..j + 1][..j] == lists[..j];
    assert lists[..j + 1][j] == lists[j];
  }

  /** The targets of the first `k` files are a prefix of all of them. */
  lemma {:induction false} FlattenPrefix(lists: seq<seq<Target>>, k: nat)
    requires k <= |lists|
    ensures |Flatten(lists[..k])| <= |Flatten(lists)|
    ensures Flatten(lists)[..|Flatten(lists[..k])|] == Flatten(lists[..k])
    decreases |lists|
  {
    if k == |lists| {
      assert lists[..k] == lists;
    } else {
      var front := lists[..|lists| - 1];
      assert front[..k] == lists[..k];
      FlattenPrefix(front, k);
    }
  }

  /** Where the `o`-th target of file `j` sits in the concatenation. */
  lemma {:induction false} FlattenAt(lists: seq<seq<Target>>, j: nat, o: nat)
    requires j < |lists| && o < |lists[j]|
    ensures |Flatten(lists[..j])| + o < |Flatten(lists[..j + 1])| <= |Flatten(lists)|
    ensures Flatten(lists)[|Flatten(lists[..j])| + o] == lists[j][o]
  {
    FlattenSnocPrefix(lists, j);
    FlattenPrefix(lists, j + 1);
    var q := |Flatten(lists[..j])| + o;
    assert Flatten(lists)[q] == Flatten(lists[..j + 1])[q];
  }

  /** A target of file `j` comes before every target of any later file `k`. */
  lemma {:induction false} FlattenEarlier(lists: seq<seq<Target>>, j: nat, k: nat, o: nat)
    requires j < k <= |lists| && o < |lists[j]|
    ensures |Flatten(lists[..j])| + o < |Flatten(lists[..k])|
  {
    FlattenAt(lists, j, o);
    assert lists[..k][..j + 1] == lists[..j + 1];
    FlattenPrefix(lists[..k], j + 1);
  }

  /** Every position of the concatenation belongs to one file. */
  lemma {:induction false} FlattenLocate(lists: seq<seq<Target>>, p: nat) returns (k: nat, o: nat)
    requires p < |Flatten(lists)|
    ensures k < |lists| && o < |lists[k]| && p == |Flatten(lists[..k])| + o
    decreases |lists|
  {
    var front := lists[..|lists| - 1];
    if p < |Flatten(front)| {
      k, o := FlattenLocate(front, p);
      assert front[..k] == lists[..k];
    } else {
      k, o := |lists| - 1, p - |Flatten(front)|;
    }
  }

  /**
   * Each merged target comes from some file `k` and no earlier file
   * declares its name.
   */
  lemma {:induction false} MergeAllOrigin(lists: seq<seq<Target>>, i: nat) returns (k: nat)
    requires i < |MergeAll(lists)|
    ensures k < |lists| && MergeAll(lists)[i] in lists[k]
    ensures forall j :: 0 <= j < k ==> MergeAll(lists)[i].name !in Names(lists[j])
  {
    MergeAllSpec(lists);
    var m, flat := MergeAll(lists), Flatten(lists);
    var n := m[i].name;
    var p := FirstIndex(flat, n);
    var o;
    k, o := FlattenLocate(lists, p);
    FlattenAt(lists, k, o);
    forall j, o' | 0 <= j < k && 0 <= o' < |lists[j]| ensures lists[j][o'].name != n {
      FlattenAt(lists, j, o');
      FlattenEarlier(lists, j, k, o');
      assert lists[j][o'] == flat[|Flatten(lists[..j])| + o'];
    }
  }

  /** A name is merged exactly when some file declares it. */
  lemma {:induction false} MergeAllNames(lists: seq<seq<Target>>, n: string)
    ensures n in Names(MergeAll(lists)) <==> exists k :: 0 <= k < |lists| && n in Names(lists[k])
  {
    MergeAllSpec(lists);
    var flat := Flatten(lists);
    if n in Names(flat) {
      var p :| 0 <= p < |flat| && flat[p].name == n;
      var k, o := FlattenLocate(lists, p);
      FlattenAt(lists, k, o);
      assert n in Names(lists[k]);
    }
    if exists k :: 0 <= k < |lists| && n in Names(lists[k]) {
      var k :| 0 <= k < |lists| && n in Names(lists[k]);
      var o :| 0 <= o < |lists[k]| && lists[k][o].name == n;
      FlattenAt(lists, k, o);
      assert flat[|Flatten(lists[..k])| + o].name == n;
    }
  }

  /** Inserts `t` before the first target whose name is not smaller than its own. */
  function Insert(t: Target, s: seq<Target>): (r: seq<Target>)
    requires SortedByName(s)
    ensures multiset(r) == multiset(s) + multiset{t}
    ensures Names(r) == Names(s) + {t.name}
    ensures SortedByName(r)
    ensures DistinctNames(s) && t.name !in Names(s) ==> DistinctNames(r)
  {
    if s == [] then
      [t]
    else if LexLe(t.name, s[0].name) then
      NamesCons(t, s);
      InsertFrontSorted(t, s);
      assert multiset([t] + s) == multiset{t} + multiset(s);
      [t] + s
    else
      SortedTail(s);
      var rest := Insert(t, s[1..]);
      InsertLater(t, s, rest);
      [s[0]] + rest
  }

  lemma {:induction false} SortedTail(s: seq<Target>)
    requires SortedByName(s) && s != []
    ensures SortedByName(s[1..])
  {
    forall i, j | 0 <= i < j < |s| - 1 ensures LexLe(s[1..][i].name, s[1..][j].name) {
      assert s[1..][i] == s[i + 1] && s[1..][j] == s[j + 1];
    }
  }

  lemma {:induction false} InsertFrontSorted(t: Target, s: seq<Target>)
    requires SortedByName(s) && s != [] && LexLe(t.name, s[0].name)
    ensures SortedByName([t] + s)
    ensures DistinctNames(s) && t.name !in Names(s) ==> DistinctNames([t] + s)
  {
    var r := [t] + s;
    forall j | 1 <= j < |r| ensures LexLe(t.name, r[j].name) {
      if j > 1 { LexLeTransitive(t.name, s[0].name, r[j].name); }
    }
    if DistinctNames(s) && t.name !in Names(s) {
      forall i, j | 0 <= i < j < |r| ensures r[i].name != r[j].name {
        assert r[j] == s[j - 1];
      }
    }
  }

  lemma {:induction false} InsertLater(t: Target, s: seq<Target>, rest: seq<Target>)
    requires SortedByName(s) && s != [] && !LexLe(t.name, s[0].name)
    requires multiset(rest) == multiset(s[1..]) + multiset{t}
    requires Names(rest) == Names(s[1..]) + {t.name}
    requires SortedByName(rest)
    requires DistinctNames(s[1..]) && t.name !in Names(s[1..]) ==> DistinctNames(rest)
    ensures multiset([s[0]] + rest) == multiset(s) + multiset{t}
    ensures Names([s[0]] + rest) == Names(s) + {t.name}
    ensures SortedByName([s[0]] + rest)
    ensures DistinctNames(s) && t.name !in Names(s) ==> DistinctNames([s[0]] + rest)
  {
    assert s == [s[0]] + s[1..];
    assert multiset(s) == multiset{s[0]} + multiset(s[1..]);
    NamesCons(s[0], s[1..]);
    NamesCons(s[0], rest);
    if DistinctNames(s) && t.name !in Names(s) {
      DistinctTail(s);
    }
    InsertLaterSorted(t, s, rest);
  }

  lemma {:induction false} InsertLaterSorted(t: Target, s: seq<Target>, rest: seq<Target>)
    requires SortedByName(s) && s != [] && !LexLe(t.name, s[0].name)
    requires SortedByName(rest) && Names(rest) == Names(s[1..]) + {t.name}
    requires DistinctNames(s) && t.name !in Names(s) ==> DistinctNames(rest)
    ensures SortedByName([s[0]] + rest)
    ensures DistinctNames(s) && t.name !in Names(s) ==> DistinctNames([s[0]] + rest)
  {
    var r := [s[0]] + rest;
    LexLeTotal(t.name, s[0].name);
    forall j | 1 <= j < |r| ensures LexLe(s[0].name, r[j].name) {
      assert r[j] == rest[j - 1];
      assert r[j].name in Names(rest);
      if r[j].name != t.name {
        var k :| 0 <= k < |s[1..]| && s[1..][k].name == r[j].name;
        assert s[k + 1] == s[1..][k];
      }
    }
    if DistinctNames(s) && t.name !in Names(s) {
      DistinctTail(s);
      forall i, j | 0 <= i < j < |r| ensures r[i].name != r[j].name {
        if i == 0 {
          assert r[j] == rest[j - 1];
          assert r[j].name in Names(rest);
        } else {
          assert r[i] == rest[i - 1] && r[j] == rest[j - 1];
        }
      }
    }
  }

  /**
   * `sort_by(|a, b| a.name.cmp(&b.name))`: a permutation, ordered by name,
   * with the same names; distinct names stay distinct. Insertion keeps equal
   * names in their original order, as the standard library's stable sort does.
   */
  function SortByName(ts: seq<Target>): (r: seq<Target>)
    ensures multiset(r) == multiset(ts)
    ensures SortedByName(r)
    ensures Names(r) == Names(ts)
    ensures DistinctNames(ts) ==> DistinctNames(r)
  {
    if ts == [] then []
    else
      var rest := SortByName(ts[1..]);
      SortStep(ts, rest);
      Insert(ts[0], rest)
  }

  /** Inserting the head into the sorted tail sorts the whole list. */
  lemma {:induction false} SortStep(ts: seq<Target>, rest: seq<Target>)
    requires ts != []
    requires multiset(rest) == multiset(ts[1..]) && SortedByName(rest) && Names(rest) == Names(ts[1..])
    requires DistinctNames(ts[1..]) ==> DistinctNames(rest)
    ensures var r := Insert(ts[0], rest);
            && multiset(r) == multiset(ts)
            && SortedByName(r)
            && Names(r) == Names(ts)
            && (DistinctNames(ts) ==> DistinctNames(r))
  {
    assert ts == [ts[0]] + ts[1..];
    assert multiset(ts) == multiset{ts[0]} + multiset(ts[1..]);
    NamesCons(ts[0], ts[1..]);
    if DistinctNames(ts) {
      DistinctTail(ts);
    }
  }

  /**
   * With distinct names there is only one ordered permutation, so any sorting
   * algorithm, stable or not, yields the same list.
   */
  lemma {:induction false} SortedPermutationUnique(a: seq<Target>, b: seq<Target>)
    requires multiset(a) == multiset(b)
    requires SortedByName(a) && SortedByName(b) && DistinctNames(a)
    ensures a == b
    decreases |a|
  {
    if a != [] {
      SamePermutationHead(a, b);
      MultisetTail(a, b);
      DistinctTail(a);
      SortedTail(a);
      SortedTail(b);
      SortedPermutationUnique(a[1..], b[1..]);
      assert a == [a[0]] + a[1..] && b == [b[0]] + b[1..];
    }
  }

  /** Two sorted permutations of a non-empty list with distinct names start alike. */
  lemma {:induction false} SamePermutationHead(a: seq<Target>, b: seq<Target>)
    requires multiset(a) == multiset(b) && a != []
    requires SortedByName(a) && SortedByName(b) && DistinctNames(a)
    ensures b != [] && a[0] == b[0]
  {
    assert a[0] in multiset(b);
    assert b != [];
    assert b[0] in multiset(a);
    var i :| 0 <= i < |a| && a[i] == b[0];
    var j :| 0 <= j < |b| && b[j] == a[0];
    if i != 0 {
      assert LexLe(a[0].name, a[i].name);
      if j != 0 {
        assert LexLe(b[0].name, b[j].name);
        LexLeAntisymmetric(a[0].name, a[i].name);
      }
    }
  }

  lemma {:induction false} MultisetTail(a: seq<Target>, b: seq<Target>)
    requires multiset(a) == multiset(b) && a != [] && b != [] && a[0] == b[0]
    ensures multiset(a[1..]) == multiset(b[1..])
  {
    assert a == [a[0]] + a[1..] && b == [b[0]] + b[1..];
    assert multiset(a) == multiset{a[0]} + multiset(a[1..]);
    assert multiset(b) == multiset{b[0]} + multiset(b[1..]);
    assert multiset(a[1..]) == multiset(a) - multiset{a[0]};
    assert multiset(b[1..]) == multiset(b) - multiset{b[0]};
  }

  /**
   * The seen-names loop of both drivers: appends to `all` the targets of `ts`
   * whose names are new, keeping `seen` equal to the names collected so far.
   */
  method AppendNew(all: seq<Target>, seen: set<string>, ts: seq<Target>)
      returns (all': seq<Target>, seen': set<string>)
    requires seen == Names(all)
    ensures all' == MergeInto(all, ts)
    ensures seen' == Names(all')
  {
    all', seen' := all, seen;
    for i := 0 to |ts|
      invariant all' == MergeInto(all, ts[..i])
      invariant seen' == Names(all')
    {
      assert ts[..i + 1][..i] == ts[..i];
      var t := ts[i];
      if t.name !in seen' {
        NamesSnoc(all', t);
        seen' := seen' + {t.name};
        all' := all' + [t];
      }
    }
    assert ts[..|ts|] == ts;
  }
}
