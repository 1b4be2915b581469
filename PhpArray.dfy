/**
 * PHP's string-keyed arrays, the data structure every operation of FileIni
 * works on, modelled as a sequence of (key, value) entries in insertion order.
 *
 *   $m[$k] = $v      overwrites the entry named k where it stands, or appends
 *                    a new entry at the end                       (Assign)
 *   unset($m[$k])    drops the entry named k, the others keep their order
 *                                                                 (Unset)
 *   $m[$k]           the value stored under k, or null             (Lookup)
 *
 * A PHP array never holds two entries with the same key; that is the
 * predicate Unique, which every operation here preserves.
 */
module PhpArray {

  datatype Option<T> = None | Some(value: T)

  /** The keys of an array, in order. */
  function Keys<V>(m: seq<(string, V)>): (ks: seq<string>)
    ensures |ks| == |m| && forall i :: 0 <= i < |m| ==> ks[i] == m[i].0
  {
    seq(|m|, i requires 0 <= i < |m| => m[i].0)
  }

  /** No key occurs twice. */
  ghost predicate Unique<V>(m: seq<(string, V)>)
  {
    forall i, j :: 0 <= i < j < |m| ==> m[i].0 != m[j].0
  }

  /** 0-based position of the first occurrence of k in ks, or -1. */
  function Position(ks: seq<string>, k: string): (r: int)
    ensures -1 <= r < |ks|
    ensures r == -1 <==> k !in ks
    ensures 0 <= r ==> ks[r] == k && forall i :: 0 <= i < r ==> ks[i] != k
  {
    if |ks| == 0 then -1
    else if ks[0] == k then 0
    else
      var j := Position(ks[1..], k);
      assert ks == [ks[0]] + ks[1..];
      assert forall i :: 1 <= i < |ks| ==> ks[i] == ks[1..][i - 1];
      if j == -1 then -1 else j + 1
  }

  /** 0-based position of the entry named k, or -1 when there is none. */
  function IndexOf<V>(m: seq<(string, V)>, k: string): (r: int)
    ensures -1 <= r < |m|
    ensures r == -1 <==> k !in Keys(m)
    ensures 0 <= r ==> m[r].0 == k && forall i :: 0 <= i < r ==> m[i].0 != k
  {
    Position(Keys(m), k)
  }

  /** `$m[$k]`: the value of the entry named k, None standing for PHP's null. */
  function Lookup<V>(m: seq<(string, V)>, k: string): (r: Option<V>)
    ensures r.Some? <==> k in Keys(m)
    ensures r.Some? ==> (k, r.value) in m
  {
    var i := IndexOf(m, k);
    if i < 0 then None else Some(m[i].1)
  }

  /** `$m[$k]`, with a missing entry read as the given default. */
  function LookupOr<V>(m: seq<(string, V)>, k: string, default: V): (r: V)
  {
    match Lookup(m, k)
    case Some(v) => v
    case None => default
  }

  /** `$m[$k] = $v`. */
  function Assign<V>(m: seq<(string, V)>, k: string, v: V): (r: seq<(string, V)>)
    ensures Lookup(r, k) == Some(v)
    ensures k in Keys(m) ==> Keys(r) == Keys(m) && IndexOf(r, k) == IndexOf(m, k)
    ensures k in Keys(m) ==> forall i :: 0 <= i < |m| && i != IndexOf(m, k) ==> r[i] == m[i]
    ensures k !in Keys(m) ==> r == m + [(k, v)]
    ensures Unique(m) ==> Unique(r)
  {
    var i := IndexOf(m, k);
    if i < 0 then
      var r := m + [(k, v)];
      assert Keys(r) == Keys(m) + [k];
      PositionAppend(Keys(m), k, k);
      r
    else
      var r := m[i := (k, v)];
      assert Keys(r) == Keys(m);
      r
  }

  /** `unset($m[$k])`. */
  function Unset<V>(m: seq<(string, V)>, k: string): (r: seq<(string, V)>)
    ensures k !in Keys(m) ==> r == m
    ensures k in Keys(m) ==> |r| == |m| - 1
    ensures k in Keys(m) ==> forall i :: 0 <= i < IndexOf(m, k) ==> r[i] == m[i]
    ensures k in Keys(m) ==> forall i :: IndexOf(m, k) <= i < |r| ==> r[i] == m[i + 1]
    ensures Unique(m) ==> Unique(r) && k !in Keys(r)
  {
    var i := IndexOf(m, k);
    if i < 0 then m else m[..i] + m[i + 1..]
  }

  /** The array with entry e inserted immediately before the entry named p;
      unchanged when there is no such entry. */
  function InsertBefore<V>(m: seq<(string, V)>, p: string, e: (string, V)): (r: seq<(string, V)>)
    ensures p !in Keys(m) ==> r == m
    ensures p in Keys(m) ==> |r| == |m| + 1 && r[IndexOf(m, p)] == e
    ensures p in Keys(m) ==> forall i :: 0 <= i < IndexOf(m, p) ==> r[i] == m[i]
    ensures p in Keys(m) ==> forall i :: IndexOf(m, p) < i < |r| ==> r[i] == m[i - 1]
  {
    var i := IndexOf(m, p);
    if i < 0 then m else m[..i] + [e] + m[i..]
  }

  /** What the reordering loop of FileIni::before builds: the entry named x is
      taken out and, when a different entry p is present, put back with value vx
      immediately before p. */
  function MovedBefore<V>(m: seq<(string, V)>, x: string, p: string, vx: V): (r: seq<(string, V)>)
  {
    if p in Keys(m) && x != p then InsertBefore(Unset(m, x), p, (x, vx)) else Unset(m, x)
  }

  /** The entry named k exists and another entry follows it. */
  predicate HasSuccessor<V>(m: seq<(string, V)>, k: string)
  {
    0 <= IndexOf(m, k) < |m| - 1
  }

  /** The value of the entry right after the one named k, or None when k is absent or last. */
  function Successor<V>(m: seq<(string, V)>, k: string): (r: Option<V>)
    ensures r.Some? <==> HasSuccessor(m, k)
  {
    if HasSuccessor(m, k) then Some(m[IndexOf(m, k) + 1].1) else None
  }

  // ---------------------------------------------------------------------------
  // Lemmas
  // ---------------------------------------------------------------------------

  /** Position is determined by "first occurrence". */
  lemma PositionIs(ks: seq<string>, k: string, r: int)
    requires 0 <= r < |ks| && ks[r] == k
    requires forall i :: 0 <= i < r ==> ks[i] != k
    ensures Position(ks, k) == r
  {
  }

  lemma PositionAppend(ks: seq<string>, x: string, k: string)
    ensures Position(ks + [x], k) ==
      if k in ks then Position(ks, k) else if x == k then |ks| else -1
  {
    var ks' := ks + [x];
    if k in ks {
      var q := Position(ks, k);
      PositionIs(ks', k, q);
    } else if x == k {
      PositionIs(ks', k, |ks|);
    } else {
      assert k !in ks';
    }
  }

  lemma DropAppend<T>(a: seq<T>, e: T, n: int)
    requires 0 <= n <= |a|
    ensures (a + [e])[n..] == a[n..] + [e]
  {
  }

  lemma KeysAppend<V>(a: seq<(string, V)>, b: seq<(string, V)>)
    ensures Keys(a + b) == Keys(a) + Keys(b)
  {
    assert forall i :: 0 <= i < |a + b| ==> Keys(a + b)[i] == (Keys(a) + Keys(b))[i];
  }

  lemma IndexOfAppend<V>(a: seq<(string, V)>, e: (string, V), k: string)
    ensures Keys(a + [e]) == Keys(a) + [e.0]
    ensures k in Keys(a + [e]) <==> k in Keys(a) || e.0 == k
    ensures IndexOf(a + [e], k) ==
      if k in Keys(a) then IndexOf(a, k) else if e.0 == k then |a| else -1
  {
    assert Keys(a + [e]) == Keys(a) + [e.0];
    PositionAppend(Keys(a), e.0, k);
  }

  /** With unique keys, every entry is what Lookup finds under its key. */
  lemma LookupAt<V>(m: seq<(string, V)>, i: int)
    requires Unique(m) && 0 <= i < |m|
    ensures IndexOf(m, m[i].0) == i && Lookup(m, m[i].0) == Some(m[i].1)
  {
    PositionIs(Keys(m), m[i].0, i);
  }

  lemma UniquePrefix<V>(m: seq<(string, V)>, n: int)
    requires Unique(m) && 0 <= n <= |m|
    ensures Unique(m[..n])
    ensures forall j :: n <= j < |m| ==> m[j].0 !in Keys(m[..n])
  {
  }

  /** Assigning to a key that is absent further along does not depend on the tail. */
  lemma AssignAppend<V>(a: seq<(string, V)>, e: (string, V), k: string, v: V)
    ensures Assign(a + [e], k, v) ==
      if k in Keys(a) then Assign(a, k, v) + [e]
      else if e.0 == k then a + [(k, v)]
      else a + [e, (k, v)]
  {
    IndexOfAppend(a, e, k);
  }

  lemma UnsetAppend<V>(a: seq<(string, V)>, e: (string, V), k: string)
    ensures Unset(a + [e], k) ==
      if k in Keys(a) then Unset(a, k) + [e]
      else if e.0 == k then a
      else a + [e]
  {
    IndexOfAppend(a, e, k);
    var m := a + [e];
    if k in Keys(a) {
      var i := IndexOf(a, k);
      assert m[..i] == a[..i];
      DropAppend(a, e, i + 1);
      calc {
        Unset(m, k);
        m[..i] + m[i + 1..];
        a[..i] + (a[i + 1..] + [e]);
        (a[..i] + a[i + 1..]) + [e];
        Unset(a, k) + [e];
      }
    } else if e.0 == k {
      assert m[..|a|] == a;
    }
  }

  lemma InsertBeforeAppend<V>(a: seq<(string, V)>, e: (string, V), p: string, y: (string, V))
    ensures InsertBefore(a + [e], p, y) ==
      if p in Keys(a) then InsertBefore(a, p, y) + [e]
      else if e.0 == p then a + [y, e]
      else a + [e]
  {
    IndexOfAppend(a, e, p);
    var m := a + [e];
    if p in Keys(a) {
      var i := IndexOf(a, p);
      assert m[..i] == a[..i];
      assert m[i..] == a[i..] + [e];
    } else if e.0 == p {
      assert m[..|a|] == a;
      assert m[|a|..] == [e];
    }
  }

  /** Assigning twice to the same key keeps only the second value, in the first one's place. */
  lemma AssignAssign<V>(m: seq<(string, V)>, k: string, v: V, w: V)
    ensures Assign(Assign(m, k, v), k, w) == Assign(m, k, w)
  {
    var r := Assign(m, k, v);
    var i := IndexOf(m, k);
    if i >= 0 {
      assert r == m[i := (k, v)];
      assert Keys(r) == Keys(m);
      assert IndexOf(r, k) == i;
    } else {
      assert r == m + [(k, v)];
      IndexOfAppend(m, (k, v), k);
      assert IndexOf(r, k) == |m|;
      assert r[|m| := (k, w)] == m + [(k, w)];
    }
  }

  /** Writing back the value already stored changes nothing. */
  lemma AssignSame<V>(m: seq<(string, V)>, k: string, v: V)
    requires Lookup(m, k) == Some(v)
    ensures Assign(m, k, v) == m
  {
  }

  /**
   * Unset removes exactly the named entry: every other key keeps its value,
   * and the keys that remain keep their relative order.
   */
  lemma {:induction false} UnsetOthers<V>(m: seq<(string, V)>, k: string, k': string)
    requires Unique(m) && k' != k
    ensures Lookup(Unset(m, k), k') == Lookup(m, k')
  {
    var r := Unset(m, k);
    if k in Keys(m) {
      var i := IndexOf(m, k);
      var j := IndexOf(m, k');
      if j >= 0 {
        var j' := if j < i then j else j - 1;
        assert r[j'] == m[j];
        LookupAt(r, j');
        LookupAt(m, j);
      }
    }
  }

  // ---------------------------------------------------------------------------
  // Keys after Unset and InsertBefore
  // ---------------------------------------------------------------------------

  lemma UnsetKeys<V>(m: seq<(string, V)>, x: string, k: string)
    requires k in Keys(Unset(m, x))
    ensures k in Keys(m)
  {
    if x in Keys(m) {
      var r := Unset(m, x);
      var t := IndexOf(r, k);
      var i := IndexOf(m, x);
      assert m[if t < i then t else t + 1].0 == k;
    }
  }

  lemma UnsetKeepsOther<V>(m: seq<(string, V)>, x: string, p: string)
    requires p in Keys(m) && p != x
    ensures p in Keys(Unset(m, x))
  {
    if x in Keys(m) {
      var ip := IndexOf(m, p);
      var ix := IndexOf(m, x);
      assert Unset(m, x)[if ip < ix then ip else ip - 1].0 == p;
    }
  }

  lemma UnsetKeysMultiset<V>(m: seq<(string, V)>, x: string)
    requires x in Keys(m)
    ensures multiset(Keys(Unset(m, x))) + multiset{x} == multiset(Keys(m))
  {
    var i := IndexOf(m, x);
    var k, r := Keys(m), Unset(m, x);
    assert r == m[..i] + m[i + 1..];
    KeysAppend(m[..i], m[i + 1..]);
    KeysSlice(m, i);
    assert multiset(Keys(r)) == multiset(k[..i]) + multiset(k[i + 1..]);
    MultisetSplit(k, i);
    assert k[i] == x;
  }

  lemma KeysSlice<V>(m: seq<(string, V)>, i: nat)
    requires i < |m|
    ensures Keys(m[..i]) == Keys(m)[..i] && Keys(m[i + 1..]) == Keys(m)[i + 1..]
  {
  }

  lemma MultisetSplit<T>(k: seq<T>, i: nat)
    requires i < |k|
    ensures multiset(k) == multiset(k[..i]) + multiset{k[i]} + multiset(k[i + 1..])
  {
    assert k == k[..i] + [k[i]] + k[i + 1..];
  }

  lemma InsertBeforeKeys<V>(u: seq<(string, V)>, p: string, y: (string, V), k: string)
    requires k in Keys(InsertBefore(u, p, y))
    ensures k in Keys(u) || (k == y.0 && p in Keys(u))
  {
    if p in Keys(u) {
      var ks, j := Keys(u), IndexOf(u, p);
      KeysInsertBefore(u, p, y);
      assert ks == ks[..j] + ks[j..];
    }
  }

  /** The keys after inserting y before a present p: y's key lands at p's index. */
  lemma KeysInsertBefore<V>(u: seq<(string, V)>, p: string, y: (string, V))
    requires p in Keys(u)
    ensures Keys(InsertBefore(u, p, y)) == Keys(u)[..IndexOf(u, p)] + [y.0] + Keys(u)[IndexOf(u, p)..]
  {
    var j, ks, r := IndexOf(u, p), Keys(u), InsertBefore(u, p, y);
    var want := ks[..j] + [y.0] + ks[j..];
    forall i | 0 <= i < |want| ensures Keys(r)[i] == want[i] {
      if i < j {
        assert want[i] == ks[i];
      } else if i > j {
        assert want[i] == ks[i - 1];
      }
    }
  }

  /** Inserting a fresh entry y before p: y is immediately followed by p,
      and taking y out again restores the array. */
  lemma InsertBeforeFresh<V>(u: seq<(string, V)>, p: string, y: (string, V))
    requires Unique(u) && p in Keys(u) && y.0 !in Keys(u)
    ensures var r := InsertBefore(u, p, y);
      && Unique(r)
      && IndexOf(r, y.0) == IndexOf(u, p)
      && IndexOf(r, p) == IndexOf(u, p) + 1
      && Unset(r, y.0) == u
      && multiset(Keys(r)) == multiset(Keys(u)) + multiset{y.0}
  {
    InsertBeforeFreshIndex(u, p, y);
    InsertBeforeFreshUnique(u, p, y);
    InsertBeforeFreshUnset(u, p, y);
    InsertBeforeKeysMultiset(u, p, y);
  }

  lemma InsertBeforeFreshIndex<V>(u: seq<(string, V)>, p: string, y: (string, V))
    requires p in Keys(u) && y.0 !in Keys(u)
    ensures IndexOf(InsertBefore(u, p, y), y.0) == IndexOf(u, p)
    ensures IndexOf(InsertBefore(u, p, y), p) == IndexOf(u, p) + 1
  {
    var j := IndexOf(u, p);
    var r := InsertBefore(u, p, y);
    var kr := Keys(r);
    assert forall i :: 0 <= i < j ==> kr[i] == u[i].0;
    assert kr[j] == y.0 && kr[j + 1] == p;
    PositionIs(kr, y.0, j);
    PositionIs(kr, p, j + 1);
  }

  lemma InsertBeforeFreshUnset<V>(u: seq<(string, V)>, p: string, y: (string, V))
    requires p in Keys(u) && y.0 !in Keys(u)
    ensures Unset(InsertBefore(u, p, y), y.0) == u
  {
    var j := IndexOf(u, p);
    var r := InsertBefore(u, p, y);
    InsertBeforeFreshIndex(u, p, y);
    var t := Unset(r, y.0);
    assert |t| == |u|;
    forall i | 0 <= i < |u| ensures t[i] == u[i] {
      if i >= j {
        assert t[i] == r[i + 1];
      }
    }
  }

  lemma InsertBeforeFreshUnique<V>(u: seq<(string, V)>, p: string, y: (string, V))
    requires Unique(u) && p in Keys(u) && y.0 !in Keys(u)
    ensures Unique(InsertBefore(u, p, y))
  {
    var j := IndexOf(u, p);
    var r := InsertBefore(u, p, y);
    forall a, b | 0 <= a < b < |r| ensures r[a].0 != r[b].0 {
      if a != j && b != j {
        var a' := if a < j then a else a - 1;
        var b' := if b < j then b else b - 1;
        assert r[a] == u[a'] && r[b] == u[b'];
      } else if a == j {
        assert r[b] == u[b - 1];
      } else {
        assert r[a] == u[a];
      }
    }
  }

  lemma InsertBeforeKeysMultiset<V>(u: seq<(string, V)>, p: string, y: (string, V))
    requires p in Keys(u)
    ensures multiset(Keys(InsertBefore(u, p, y))) == multiset(Keys(u)) + multiset{y.0}
  {
    KeysInsertBefore(u, p, y);
    MultisetInsert(Keys(u), IndexOf(u, p), y.0);
  }

  lemma MultisetInsert<T>(k: seq<T>, j: nat, x: T)
    requires j <= |k|
    ensures multiset(k[..j] + [x] + k[j..]) == multiset(k) + multiset{x}
  {
    assert k == k[..j] + k[j..];
  }

  /**
   * Moving x before p (both present, distinct): x lands immediately before p,
   * with no entry between them; taking x out again gives exactly the array with
   * x taken out, so every other entry keeps its value and relative order; the
   * keys are the same and stay unique.
   */
  lemma {:induction false} MovedBeforeSpec<V>(m: seq<(string, V)>, x: string, p: string, vx: V)
    requires Unique(m) && x in Keys(m) && p in Keys(m) && x != p
    ensures var r := MovedBefore(m, x, p, vx);
      && Unique(r)
      && |r| == |m|
      && IndexOf(r, x) + 1 == IndexOf(r, p)
      && Lookup(r, x) == Some(vx)
      && Unset(r, x) == Unset(m, x)
      && multiset(Keys(r)) == multiset(Keys(m))
  {
    var u := Unset(m, x);
    UnsetKeepsOther(m, x, p);
    InsertBeforeFresh(u, p, (x, vx));
    UnsetKeysMultiset(m, x);
  }

  /** The keys MovedBefore can produce: those of m, and x only when p is present. */
  lemma MovedBeforeKeys<V>(m: seq<(string, V)>, x: string, p: string, vx: V, k: string)
    requires Unique(m)
    requires k in Keys(MovedBefore(m, x, p, vx))
    ensures if k == x then p in Keys(m) && x != p else k in Keys(m)
  {
    var u := Unset(m, x);
    if p in Keys(m) && x != p {
      InsertBeforeKeys(u, p, (x, vx), k);
      if k in Keys(u) {
        UnsetKeys(m, x, k);
      }
    } else {
      UnsetKeys(m, x, k);
    }
  }

  lemma UniqueInit<V>(a: seq<(string, V)>, e: (string, V))
    requires Unique(a + [e])
    ensures Unique(a) && e.0 !in Keys(a)
  {
    assert forall i :: 0 <= i < |a| ==> a[i] == (a + [e])[i];
    forall i | 0 <= i < |a| ensures a[i].0 != e.0 {
      assert (a + [e])[|a|] == e;
    }
  }

  /** One step of the reordering loop of FileIni::before, as a function of the prefix read so far. */
  lemma MovedBeforeAppend<V>(a: seq<(string, V)>, e: (string, V), x: string, p: string, vx: V)
    requires Unique(a + [e])
    ensures MovedBefore(a + [e], x, p, vx) ==
      if e.0 == x then MovedBefore(a, x, p, vx)
      else if e.0 == p then MovedBefore(a, x, p, vx) + [(x, vx), e]
      else MovedBefore(a, x, p, vx) + [e]
  {
    UniqueInit(a, e);
    IndexOfAppend(a, e, p);
    IndexOfAppend(a, e, x);
    UnsetAppend(a, e, x);
    var u := Unset(a, x);
    if e.0 != x {
      assert Unset(a + [e], x) == u + [e];
      InsertBeforeAppend(u, e, p, (x, vx));
      if p in Keys(a) && x != p {
        UnsetKeepsOther(a, x, p);
      } else if p in Keys(u) {
        UnsetKeys(a, x, p);
      }
    }
  }

  /** Whatever the arguments, moving keeps the keys unique. */
  lemma MovedBeforeUnique<V>(m: seq<(string, V)>, x: string, p: string, vx: V)
    requires Unique(m)
    ensures Unique(MovedBefore(m, x, p, vx))
  {
    if p in Keys(m) && x != p {
      UnsetKeepsOther(m, x, p);
      InsertBeforeFreshUnique(Unset(m, x), p, (x, vx));
    }
  }

  lemma IndexOfConcat<V>(a: seq<(string, V)>, b: seq<(string, V)>, k: string)
    ensures IndexOf(a + b, k) ==
      if k in Keys(a) then IndexOf(a, k)
      else if k in Keys(b) then |a| + IndexOf(b, k)
      else -1
  {
    KeysAppend(a, b);
    var ks := Keys(a + b);
    if k in Keys(a) {
      PositionIs(ks, k, IndexOf(a, k));
    } else if k in Keys(b) {
      var j := IndexOf(b, k);
      assert ks[|a| + j] == Keys(b)[j];
      assert forall i :: 0 <= i < |a| ==> ks[i] == Keys(a)[i];
      PositionIs(ks, k, |a| + j);
    }
  }

  /** Assigning into a concatenation touches only the part that holds the key. */
  lemma AssignConcat<V>(a: seq<(string, V)>, b: seq<(string, V)>, k: string, v: V)
    ensures k in Keys(a) ==> Assign(a + b, k, v) == Assign(a, k, v) + b
    ensures k !in Keys(a) ==> Assign(a + b, k, v) == a + Assign(b, k, v)
  {
    IndexOfConcat(a, b, k);
    if k in Keys(a) {
      AssignConcatLeft(a, b, k, v);
    } else if k in Keys(b) {
      AssignConcatRight(a, b, k, v);
    } else {
      KeysAppend(a, b);
      assert (a + b) + [(k, v)] == a + (b + [(k, v)]);
    }
  }

  lemma AssignConcatLeft<V>(a: seq<(string, V)>, b: seq<(string, V)>, k: string, v: V)
    requires k in Keys(a) && IndexOf(a + b, k) == IndexOf(a, k)
    ensures Assign(a + b, k, v) == Assign(a, k, v) + b
  {
    var i := IndexOf(a, k);
    assert (a + b)[i := (k, v)] == a[i := (k, v)] + b;
  }

  lemma AssignConcatRight<V>(a: seq<(string, V)>, b: seq<(string, V)>, k: string, v: V)
    requires k !in Keys(a) && k in Keys(b) && IndexOf(a + b, k) == |a| + IndexOf(b, k)
    ensures Assign(a + b, k, v) == a + Assign(b, k, v)
  {
    var j := IndexOf(b, k);
    assert (a + b)[|a| + j := (k, v)] == a + b[j := (k, v)];
  }

  /** The value under k is unaffected by appending an entry for a different key. */
  lemma LookupAppendOther<V>(a: seq<(string, V)>, e: (string, V), k: string)
    requires e.0 != k
    ensures Lookup(a + [e], k) == Lookup(a, k)
  {
    IndexOfAppend(a, e, k);
  }

  /** A key the prefix does not hold is not in a reordering of it either, unless it is the moved one. */
  lemma MovedBeforeFresh<V>(m: seq<(string, V)>, x: string, p: string, vx: V, k: string)
    requires Unique(m) && k !in Keys(m) && (k != x || p !in Keys(m))
    ensures k !in Keys(MovedBefore(m, x, p, vx))
  {
    if k in Keys(MovedBefore(m, x, p, vx)) {
      MovedBeforeKeys(m, x, p, vx, k);
    }
  }

  /** What the reordering loop has built after reading the entries of m, one step per entry. */
  function Placed<V>(m: seq<(string, V)>, x: string, p: string, vx: V): (r: seq<(string, V)>)
  {
    if m == [] then []
    else
      var a, e := m[..|m| - 1], m[|m| - 1];
      if e.0 == x then Placed(a, x, p, vx)
      else if e.0 == p then Placed(a, x, p, vx) + [(x, vx), e]
      else Placed(a, x, p, vx) + [e]
  }

  /** The loop's result is the described reordering. */
  lemma {:induction false} PlacedIsMovedBefore<V>(m: seq<(string, V)>, x: string, p: string, vx: V)
    requires Unique(m)
    ensures Placed(m, x, p, vx) == MovedBefore(m, x, p, vx)
  {
    if m != [] {
      var a, e := m[..|m| - 1], m[|m| - 1];
      assert m == a + [e];
      UniqueInit(a, e);
      PlacedIsMovedBefore(a, x, p, vx);
      MovedBeforeAppend(a, e, x, p, vx);
    }
  }

  /** One step of the loop, with the PHP assignments it performs. */
  lemma PlacedStep<V>(a: seq<(string, V)>, e: (string, V), x: string, p: string, vx: V)
    requires Unique(a + [e])
    ensures e.0 == x ==> Placed(a + [e], x, p, vx) == Placed(a, x, p, vx)
    ensures e.0 != x && e.0 != p ==> Placed(a + [e], x, p, vx) == Assign(Placed(a, x, p, vx), e.0, e.1)
    ensures e.0 != x && e.0 == p ==> Placed(a + [e], x, p, vx) == Assign(Assign(Placed(a, x, p, vx), x, vx), p, e.1)
  {
    assert (a + [e])[..|a|] == a;
    UniqueInit(a, e);
    PlacedIsMovedBefore(a, x, p, vx);
    var t := Placed(a, x, p, vx);
    if e.0 != x {
      MovedBeforeFresh(a, x, p, vx, e.0);
      if e.0 == p {
        assert t == Unset(a, x);
        IndexOfAppend(t, (x, vx), p);
        assert t + [(x, vx)] + [(p, e.1)] == t + [(x, vx), e];
      }
    }
  }

  /** Once x is moved right before p, the entry following x is p, with its value. */
  lemma SuccessorAfterMove<V>(m: seq<(string, V)>, x: string, p: string, vx: V)
    requires Unique(m) && x in Keys(m) && p in Keys(m) && x != p
    ensures Successor(MovedBefore(m, x, p, vx), x) == Lookup(m, p)
  {
    var r := MovedBefore(m, x, p, vx);
    MovedBeforeSpec(m, x, p, vx);
    SuccessorIs(r, x, p);
    UnsetOthers(r, x, p);
    UnsetOthers(m, x, p);
  }

  /** When p sits right after x, what follows x is p's value. */
  lemma SuccessorIs<V>(r: seq<(string, V)>, x: string, p: string)
    requires 0 <= IndexOf(r, x) && IndexOf(r, x) + 1 == IndexOf(r, p)
    ensures Successor(r, x) == Lookup(r, p)
  {
  }
}
