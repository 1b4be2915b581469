/**
 * The in-memory body of an INI file as FileIni holds it between
 * parse_ini_file and the rewrite of the file: an ordered PHP array of
 * sections, each an ordered PHP array of string values.
 *
 * For every mutating operation of FileIni this module gives the body it
 * writes back, as a function of the body it loaded, and proves what the
 * operation promises about it.
 */
module IniDocument {
  import opened PhpArray

  type Section = seq<(string, string)>
  type Document = seq<(string, Section)>

  /** What parse_ini_file can produce: unique section names, unique keys in each section. */
  ghost predicate WellFormed(d: Document)
  {
    Unique(d) && forall i :: 0 <= i < |d| ==> Unique(d[i].1)
  }

  /** PHP's truth value of a string: only "" and "0" convert to false. */
  predicate Truthy(s: string)
  {
    s != "" && s != "0"
  }

  /** The contents of section s, an absent section read as empty (PHP's null). */
  function SectionOf(d: Document, s: string): (r: Section)
  {
    LookupOr(d, s, [])
  }

  /** `$body[$s][$e]`, an absent section or key read as "" (PHP's null, as it is written out). */
  function ValueOf(d: Document, s: string, e: string): (r: string)
  {
    LookupOr(SectionOf(d, s), e, "")
  }

  /** `$body[$s][$e] = $v`. */
  function AssignIn(d: Document, s: string, e: string, v: string): (r: Document)
  {
    Assign(d, s, Assign(SectionOf(d, s), e, v))
  }

  // ---------------------------------------------------------------------------
  // Sections
  // ---------------------------------------------------------------------------

  /** FileIni::rewrite: `get` the old section, `rm` it, then `set` the new name to its contents. */
  function Renamed(d: Document, s: string, ns: string): (r: Document)
  {
    Assign(Unset(d, s), ns, SectionOf(d, s))
  }

  /** FileIni::before(s, p): the loop keeps every section but s, and emits s right before p. */
  function SectionMovedBefore(d: Document, s: string, p: string): (r: Document)
  {
    MovedBefore(d, s, p, SectionOf(d, s))
  }

  /** FileIni::after(s, p): the loop keeps every section but p, and emits p right before s. */
  function SectionMovedAfter(d: Document, s: string, p: string): (r: Document)
  {
    MovedBefore(d, p, s, SectionOf(d, p))
  }

  // ---------------------------------------------------------------------------
  // Keys
  // ---------------------------------------------------------------------------

  /** FileIni::setKey with a string: `$body[$s][$e] = ""` when section s exists. */
  function KeyAdded(d: Document, s: string, e: string): (r: Document)
  {
    if s in Keys(d) then AssignIn(d, s, e, "") else d
  }

  /** The section after `$sec[$k] = $v` for every pair of ps, in order. */
  function Merge(sec: Section, ps: Section): (r: Section)
  {
    if ps == [] then sec
    else
      var last := ps[|ps| - 1];
      Assign(Merge(sec, ps[..|ps| - 1]), last.0, last.1)
  }

  /** FileIni::setKey with an array: every pair assigned into section s, when it exists. */
  function KeysMerged(d: Document, s: string, ps: Section): (r: Document)
  {
    if s in Keys(d) then Assign(d, s, Merge(SectionOf(d, s), ps)) else d
  }

  /** One pass of setKey's inner loop: the next pair goes into the section merged with the earlier ones. */
  lemma MergeStep(d: Document, s: string, sec: Section, ps: Section, j: nat)
    requires j < |ps|
    ensures AssignIn(Assign(d, s, Merge(sec, ps[..j])), s, ps[j].0, ps[j].1) == Assign(d, s, Merge(sec, ps[..j + 1]))
  {
    assert ps[..j + 1][..j] == ps[..j];
    var m := Merge(sec, ps[..j]);
    assert SectionOf(Assign(d, s, m), s) == m;
    AssignAssign(d, s, m, Merge(sec, ps[..j + 1]));
  }

  /**
   * FileIni::writeInKey and FileIni::rewriteInKey. The test `if($k = $element)`
   * assigns instead of comparing, so the write happens once per key of a
   * non-empty section s whenever e is truthy, whatever the keys are.
   */
  function KeyWritten(d: Document, s: string, e: string, c: string): (r: Document)
  {
    if SectionOf(d, s) != [] && Truthy(e) then AssignIn(d, s, e, c) else d
  }

  /** FileIni::rmKey: `unset($body[$s][$e])`, a no-op when section s is absent. */
  function KeyUnset(d: Document, s: string, e: string): (r: Document)
  {
    if s in Keys(d) then Assign(d, s, Unset(SectionOf(d, s), e)) else d
  }

  /** FileIni::rewriteKey: getKey, rmKey, setKey, writeInKey, in that order. */
  function KeyRenamed(d: Document, s: string, e: string, ne: string): (r: Document)
  {
    KeyWritten(KeyAdded(KeyUnset(d, s, e), s, ne), s, ne, ValueOf(d, s, e))
  }

  /** FileIni::moveKey: getKey, rmKey, then setKey of the pair into the new section. */
  function KeyMoved(d: Document, s: string, e: string, ns: string): (r: Document)
  {
    KeysMerged(KeyUnset(d, s, e), ns, [(e, ValueOf(d, s, e))])
  }

  /** FileIni::beforeKey(s, e, b): section s reordered as `before` reorders sections. */
  function KeyMovedBefore(d: Document, s: string, e: string, b: string): (r: Document)
  {
    var sec := SectionOf(d, s);
    if s in Keys(d) then Assign(d, s, MovedBefore(sec, e, b, LookupOr(sec, e, ""))) else d
  }

  /** FileIni::afterKey(s, e, a): section s reordered as `after` reorders sections. */
  function KeyMovedAfter(d: Document, s: string, e: string, a: string): (r: Document)
  {
    var sec := SectionOf(d, s);
    if s in Keys(d) then Assign(d, s, MovedBefore(sec, a, e, LookupOr(sec, a, ""))) else d
  }

  // ---------------------------------------------------------------------------
  // The invariant: every operation keeps the body well formed
  // ---------------------------------------------------------------------------

  lemma SectionOfUnique(d: Document, s: string)
    requires WellFormed(d)
    ensures Unique(SectionOf(d, s))
  {
    if s in Keys(d) {
      LookupAt(d, IndexOf(d, s));
    }
  }

  lemma AssignWellFormed(d: Document, s: string, sec: Section)
    requires WellFormed(d) && Unique(sec)
    ensures WellFormed(Assign(d, s, sec))
  {
    var r := Assign(d, s, sec);
    forall i | 0 <= i < |r| ensures Unique(r[i].1) {
      if s in Keys(d) && i != IndexOf(d, s) {
        assert r[i] == d[i];
      } else if s !in Keys(d) && i < |d| {
        assert r[i] == d[i];
      }
    }
  }

  lemma UnsetWellFormed(d: Document, s: string)
    requires WellFormed(d)
    ensures WellFormed(Unset(d, s))
  {
    var r := Unset(d, s);
    if s in Keys(d) {
      forall i | 0 <= i < |r| ensures Unique(r[i].1) {
        if i >= IndexOf(d, s) {
          assert r[i] == d[i + 1];
        } else {
          assert r[i] == d[i];
        }
      }
    }
  }

  lemma MovedBeforeWellFormed(d: Document, x: string, p: string, vx: Section)
    requires WellFormed(d) && Unique(vx)
    ensures WellFormed(MovedBefore(d, x, p, vx))
  {
    var u := Unset(d, x);
    UnsetWellFormed(d, x);
    if p in Keys(d) && x != p {
      UnsetKeepsOther(d, x, p);
      InsertBeforeFreshUnique(u, p, (x, vx));
      var r := InsertBefore(u, p, (x, vx));
      var j := IndexOf(u, p);
      forall i | 0 <= i < |r| ensures Unique(r[i].1) {
        if i < j {
          assert r[i] == u[i];
        } else if i > j {
          assert r[i] == u[i - 1];
        }
      }
    }
  }

  lemma MergeUnique(sec: Section, ps: Section)
    requires Unique(sec)
    ensures Unique(Merge(sec, ps))
  {
    if ps != [] {
      MergeUnique(sec, ps[..|ps| - 1]);
    }
  }

  /** Every operation on sections and keys preserves well-formedness. */
  lemma {:induction false} OperationsWellFormed(d: Document, s: string, t: string, e: string, c: string, ps: Section, a: Section)
    requires WellFormed(d) && Unique(a)
    ensures WellFormed(Assign(d, s, a))
    ensures WellFormed(Unset(d, s))
    ensures WellFormed(Renamed(d, s, t))
    ensures WellFormed(SectionMovedBefore(d, s, t))
    ensures WellFormed(SectionMovedAfter(d, s, t))
    ensures WellFormed(KeyAdded(d, s, e))
    ensures WellFormed(KeysMerged(d, s, ps))
    ensures WellFormed(KeyWritten(d, s, e, c))
    ensures WellFormed(KeyUnset(d, s, e))
    ensures WellFormed(KeyRenamed(d, s, e, t))
    ensures WellFormed(KeyMoved(d, s, e, t))
    ensures WellFormed(KeyMovedBefore(d, s, e, t))
    ensures WellFormed(KeyMovedAfter(d, s, e, t))
  {
    var sec := SectionOf(d, s);
    SectionOfUnique(d, s);
    AssignWellFormed(d, s, a);
    UnsetWellFormed(d, s);
    SectionOfUnique(d, t);
    AssignWellFormed(Unset(d, s), t, SectionOf(d, s));
    MovedBeforeWellFormed(d, s, t, sec);
    MovedBeforeWellFormed(d, t, s, SectionOf(d, t));
    KeyAddedWellFormed(d, s, e);
    MergeUnique(sec, ps);
    AssignWellFormed(d, s, Merge(sec, ps));
    KeyWrittenWellFormed(d, s, e, c);
    AssignWellFormed(d, s, Unset(sec, e));
    var d1 := KeyUnset(d, s, e);
    KeyAddedWellFormed(d1, s, t);
    KeyWrittenWellFormed(KeyAdded(d1, s, t), s, t, ValueOf(d, s, e));
    SectionOfUnique(d1, t);
    MergeUnique(SectionOf(d1, t), [(e, ValueOf(d, s, e))]);
    AssignWellFormed(d1, t, Merge(SectionOf(d1, t), [(e, ValueOf(d, s, e))]));
    MovedBeforeUnique(sec, e, t, LookupOr(sec, e, ""));
    AssignWellFormed(d, s, MovedBefore(sec, e, t, LookupOr(sec, e, "")));
    MovedBeforeUnique(sec, t, e, LookupOr(sec, t, ""));
    AssignWellFormed(d, s, MovedBefore(sec, t, e, LookupOr(sec, t, "")));
  }

  lemma KeyAddedWellFormed(d: Document, s: string, e: string)
    requires WellFormed(d)
    ensures WellFormed(KeyAdded(d, s, e))
  {
    SectionOfUnique(d, s);
    AssignWellFormed(d, s, Assign(SectionOf(d, s), e, ""));
  }

  lemma KeyWrittenWellFormed(d: Document, s: string, e: string, c: string)
    requires WellFormed(d)
    ensures WellFormed(KeyWritten(d, s, e, c))
  {
    SectionOfUnique(d, s);
    AssignWellFormed(d, s, Assign(SectionOf(d, s), e, c));
  }

  // ---------------------------------------------------------------------------
  // What each operation does
  // ---------------------------------------------------------------------------

  /** r is d with only the section named s possibly replaced, in place. */
  ghost predicate OnlySectionChanged(d: Document, r: Document, s: string)
  {
    Keys(r) == Keys(d) && forall i :: 0 <= i < |d| && d[i].0 != s ==> r[i] == d[i]
  }

  /**
   * FileIni::rewrite(s, ns), when ns is not already another section: s is gone
   * and ns is the LAST section, holding what s held (nothing, if s was absent);
   * the remaining sections keep their contents and order.
   */
  lemma RenamedSpec(d: Document, s: string, ns: string)
    requires WellFormed(d) && (ns == s || ns !in Keys(d))
    ensures Renamed(d, s, ns) == Unset(d, s) + [(ns, SectionOf(d, s))]
    ensures ns != s ==> s !in Keys(Renamed(d, s, ns))
    ensures WellFormed(Renamed(d, s, ns))
  {
    if ns in Keys(Unset(d, s)) {
      UnsetKeys(d, s, ns);
    }
    UnsetWellFormed(d, s);
    SectionOfUnique(d, s);
    AssignWellFormed(Unset(d, s), ns, SectionOf(d, s));
    KeysAppend(Unset(d, s), [(ns, SectionOf(d, s))]);
  }

  /**
   * FileIni::before(s, p), both present and distinct: s ends immediately before
   * p with its contents; with s taken out, the body is exactly the old body with
   * s taken out, so all other sections keep their contents and relative order.
   */
  lemma SectionMovedBeforeSpec(d: Document, s: string, p: string)
    requires WellFormed(d) && s in Keys(d) && p in Keys(d) && s != p
    ensures var r := SectionMovedBefore(d, s, p);
      && WellFormed(r)
      && IndexOf(r, s) + 1 == IndexOf(r, p)
      && Lookup(r, s) == Lookup(d, s)
      && Unset(r, s) == Unset(d, s)
      && multiset(Keys(r)) == multiset(Keys(d))
  {
    MovedBeforeSpec(d, s, p, SectionOf(d, s));
    MovedBeforeWellFormed(d, s, p, SectionOf(d, s)) by { SectionOfUnique(d, s); }
  }

  /**
   * FileIni::after(s, p), both present and distinct: it is p that moves, to
   * immediately before s (so s immediately follows p); with p taken out, the
   * body is the old body with p taken out.
   */
  lemma SectionMovedAfterSpec(d: Document, s: string, p: string)
    requires WellFormed(d) && s in Keys(d) && p in Keys(d) && s != p
    ensures var r := SectionMovedAfter(d, s, p);
      && WellFormed(r)
      && IndexOf(r, p) + 1 == IndexOf(r, s)
      && Lookup(r, p) == Lookup(d, p)
      && Unset(r, p) == Unset(d, p)
      && multiset(Keys(r)) == multiset(Keys(d))
  {
    MovedBeforeSpec(d, p, s, SectionOf(d, p));
    MovedBeforeWellFormed(d, p, s, SectionOf(d, p)) by { SectionOfUnique(d, p); }
  }

  /**
   * The cases the reordering loops do not guard against. In before(s, p) a
   * missing pivot p, or s == p, drops s, and a missing s turns up, empty, right
   * before p. In after(s, p), which moves p, a missing s, or s == p, drops p,
   * and a missing p turns up, empty, right before s.
   */
  lemma SectionMovedBeforeEdges(d: Document, s: string, p: string)
    requires WellFormed(d)
    ensures p !in Keys(d) || s == p ==> SectionMovedBefore(d, s, p) == Unset(d, s)
    ensures p in Keys(d) && s !in Keys(d) ==> SectionMovedBefore(d, s, p) == InsertBefore(d, p, (s, []))
    ensures s !in Keys(d) || s == p ==> SectionMovedAfter(d, s, p) == Unset(d, p)
    ensures s in Keys(d) && p !in Keys(d) ==> SectionMovedAfter(d, s, p) == InsertBefore(d, s, (p, []))
  {
  }

  /**
   * The same cases for beforeKey and afterKey in a present section s. In
   * beforeKey(s, e, b) a missing b, or e == b, deletes e, and a missing e is
   * inserted with "" right before b. In afterKey(s, e, a), which moves a, a
   * missing e, or e == a, deletes a, and a missing a is inserted with "" right
   * before e.
   */
  lemma KeyMovedEdges(d: Document, s: string, e: string, t: string)
    requires WellFormed(d) && s in Keys(d)
    ensures var sec := SectionOf(d, s);
      && (t !in Keys(sec) || e == t ==> KeyMovedBefore(d, s, e, t) == KeyUnset(d, s, e))
      && (t in Keys(sec) && e !in Keys(sec) ==> KeyMovedBefore(d, s, e, t) == Assign(d, s, InsertBefore(sec, t, (e, ""))))
      && (e !in Keys(sec) || e == t ==> KeyMovedAfter(d, s, e, t) == KeyUnset(d, s, t))
      && (e in Keys(sec) && t !in Keys(sec) ==> KeyMovedAfter(d, s, e, t) == Assign(d, s, InsertBefore(sec, e, (t, ""))))
  {
  }

  /** Assigning to a present section replaces it in place and leaves the others alone. */
  lemma SetSpec(d: Document, s: string, sec: Section)
    requires s in Keys(d)
    ensures OnlySectionChanged(d, Assign(d, s, sec), s)
    ensures SectionOf(Assign(d, s, sec), s) == sec
  {
  }

  /**
   * FileIni::setKey(s, e) on a present section: e holds "" afterwards; a key
   * already there keeps its position, a new one is appended; no other key and
   * no other section changes.
   */
  lemma KeyAddedSpec(d: Document, s: string, e: string)
    requires WellFormed(d) && s in Keys(d)
    ensures var sec, r := SectionOf(d, s), KeyAdded(d, s, e);
      && OnlySectionChanged(d, r, s)
      && SectionOf(r, s) == Assign(sec, e, "")
      && Lookup(SectionOf(r, s), e) == Some("")
      && (e in Keys(sec) ==> Keys(SectionOf(r, s)) == Keys(sec))
      && (e !in Keys(sec) ==> SectionOf(r, s) == sec + [(e, "")])
      && WellFormed(r)
  {
    SetSpec(d, s, Assign(SectionOf(d, s), e, ""));
    KeyAddedWellFormed(d, s, e);
  }

  /** Every key operation leaves the body alone when section s does not exist. */
  lemma KeyOperationsOnAbsentSection(d: Document, s: string, e: string, t: string, c: string, ps: Section)
    requires s !in Keys(d)
    ensures KeyAdded(d, s, e) == d && KeysMerged(d, s, ps) == d && KeyWritten(d, s, e, c) == d
    ensures KeyUnset(d, s, e) == d && KeyMovedBefore(d, s, e, t) == d && KeyMovedAfter(d, s, e, t) == d
  {
  }

  /** The pairs of ps whose keys the section does not have yet, in the order of ps. */
  function Fresh(ps: Section, sec: Section): (r: Section)
    ensures forall k :: k in Keys(r) ==> k in Keys(ps) && k !in Keys(sec)
  {
    if ps == [] then []
    else
      var init, last := ps[..|ps| - 1], ps[|ps| - 1];
      var r := Fresh(init, sec) + (if last.0 in Keys(sec) then [] else [last]);
      KeysAppend(init, [last]);
      assert ps == init + [last];
      KeysAppend(Fresh(init, sec), if last.0 in Keys(sec) then [] else [last]);
      r
  }

  /** The section with the value of every key that ps also names replaced by ps's value. */
  function Overwritten(sec: Section, ps: Section): (r: Section)
    ensures |r| == |sec| && Keys(r) == Keys(sec)
  {
    seq(|sec|, i requires 0 <= i < |sec| => (sec[i].0, LookupOr(ps, sec[i].0, sec[i].1)))
  }

  /**
   * FileIni::setKey(s, array): the keys the section already has are
   * overwritten in place, and the new keys are appended in the array's order.
   */
  lemma {:induction false} MergeSpec(sec: Section, ps: Section)
    requires Unique(sec) && Unique(ps)
    ensures Merge(sec, ps) == Overwritten(sec, ps) + Fresh(ps, sec)
  {
    if ps == [] {
      assert Overwritten(sec, ps) == sec;
    } else {
      var init, q := ps[..|ps| - 1], ps[|ps| - 1];
      assert ps == init + [q];
      UniqueInit(init, q);
      MergeSpec(sec, init);
      MergeSpecStep(sec, init, q);
    }
  }

  /** The inductive step of MergeSpec: one more pair at the end of ps. */
  lemma MergeSpecStep(sec: Section, init: Section, q: (string, string))
    requires Unique(sec) && q.0 !in Keys(init)
    requires Merge(sec, init) == Overwritten(sec, init) + Fresh(init, sec)
    ensures Merge(sec, init + [q]) == Overwritten(sec, init + [q]) + Fresh(init + [q], sec)
  {
    var ps := init + [q];
    assert ps[..|ps| - 1] == init;
    var o, f := Overwritten(sec, init), Fresh(init, sec);
    AssignConcat(o, f, q.0, q.1);
    if q.0 in Keys(sec) {
      OverwrittenStepPresent(sec, init, q);
    } else {
      OverwrittenStepAbsent(sec, init, q);
      assert q.0 !in Keys(f);
    }
  }

  lemma OverwrittenStepPresent(sec: Section, init: Section, q: (string, string))
    requires Unique(sec) && q.0 in Keys(sec) && q.0 !in Keys(init)
    ensures Assign(Overwritten(sec, init), q.0, q.1) == Overwritten(sec, init + [q])
  {
    var o, o' := Overwritten(sec, init), Overwritten(sec, init + [q]);
    var i := IndexOf(sec, q.0);
    var a := Assign(o, q.0, q.1);
    assert IndexOf(o, q.0) == i;
    forall t | 0 <= t < |sec| ensures a[t] == o'[t] {
      if t == i {
        IndexOfAppend(init, q, q.0);
      } else {
        assert sec[t].0 != q.0 by { LookupAt(sec, t); }
        LookupAppendOther(init, q, sec[t].0);
      }
    }
  }

  lemma OverwrittenStepAbsent(sec: Section, init: Section, q: (string, string))
    requires q.0 !in Keys(sec)
    ensures Overwritten(sec, init + [q]) == Overwritten(sec, init)
  {
    var o, o' := Overwritten(sec, init), Overwritten(sec, init + [q]);
    forall t | 0 <= t < |sec| ensures o'[t] == o[t] {
      assert sec[t].0 in Keys(sec);
      LookupAppendOther(init, q, sec[t].0);
    }
  }

  /** FileIni::setKey(s, array) on a present section, and a no-op on an absent one. */
  lemma KeysMergedSpec(d: Document, s: string, ps: Section)
    requires WellFormed(d) && Unique(ps)
    ensures var sec, r := SectionOf(d, s), KeysMerged(d, s, ps);
      && (s in Keys(d) ==> OnlySectionChanged(d, r, s) && SectionOf(r, s) == Overwritten(sec, ps) + Fresh(ps, sec))
      && (s !in Keys(d) ==> r == d)
  {
    SectionOfUnique(d, s);
    MergeSpec(SectionOf(d, s), ps);
    if s in Keys(d) {
      SetSpec(d, s, Merge(SectionOf(d, s), ps));
    }
  }

  /**
   * FileIni::writeInKey(s, e, c): when s is a non-empty section and e is truthy,
   * e holds c afterwards, at its old position or appended; otherwise nothing
   * changes. FileIni::rmInKey is the case c == "": the key stays, emptied.
   */
  lemma KeyWrittenSpec(d: Document, s: string, e: string, c: string)
    requires WellFormed(d)
    ensures var sec, r := SectionOf(d, s), KeyWritten(d, s, e, c);
      if sec != [] && Truthy(e) then
        && OnlySectionChanged(d, r, s)
        && SectionOf(r, s) == Assign(sec, e, c)
        && Lookup(SectionOf(r, s), e) == Some(c)
        && (e in Keys(sec) ==> Keys(SectionOf(r, s)) == Keys(sec))
        && (e !in Keys(sec) ==> SectionOf(r, s) == sec + [(e, c)])
      else r == d
  {
    var sec := SectionOf(d, s);
    if sec != [] && Truthy(e) {
      assert s in Keys(d);
      SetSpec(d, s, Assign(sec, e, c));
    }
  }

  /**
   * FileIni::rmKey(s, e), section s present: the section loses exactly key e,
   * the other keys keep their values and order, and no other section changes.
   */
  lemma KeyUnsetSpec(d: Document, s: string, e: string)
    requires WellFormed(d) && s in Keys(d)
    ensures var sec, r := SectionOf(d, s), KeyUnset(d, s, e);
      && OnlySectionChanged(d, r, s)
      && SectionOf(r, s) == Unset(sec, e)
      && e !in Keys(SectionOf(r, s))
      && forall k :: k != e ==> Lookup(SectionOf(r, s), k) == Lookup(sec, k)
  {
    var sec := SectionOf(d, s);
    SectionOfUnique(d, s);
    SetSpec(d, s, Unset(sec, e));
    forall k | k != e ensures Lookup(Unset(sec, e), k) == Lookup(sec, k) {
      UnsetOthers(sec, e, k);
    }
  }

  /**
   * FileIni::rewriteKey(s, e, ne), section s present and ne not another key of
   * it: e is gone and ne is the LAST key, holding e's value, or "" when ne is
   * falsy (writeInKey then writes nothing); every other key and section stays.
   */
  lemma KeyRenamedSpec(d: Document, s: string, e: string, ne: string)
    requires WellFormed(d) && s in Keys(d) && (ne == e || ne !in Keys(SectionOf(d, s)))
    ensures var sec, r := SectionOf(d, s), KeyRenamed(d, s, e, ne);
      && OnlySectionChanged(d, r, s)
      && SectionOf(r, s) == Unset(sec, e) + [(ne, if Truthy(ne) then ValueOf(d, s, e) else "")]
  {
    var sec := SectionOf(d, s);
    SectionOfUnique(d, s);
    assert ne !in Keys(Unset(sec, e)) by {
      if ne != e && ne in Keys(Unset(sec, e)) { UnsetKeys(sec, e, ne); }
    }
    KeyRenamedAssigns(d, s, e, ne);
  }

  /**
   * FileIni::rewriteKey(s, e, ne) for any ne, section s present: the section
   * becomes the one without e, with ne then assigned e's value ("" for a falsy
   * ne). An existing ne keeps its position and is overwritten; a missing e
   * gives ne the value "", so an existing ne is emptied in place.
   */
  lemma KeyRenamedAssigns(d: Document, s: string, e: string, ne: string)
    requires WellFormed(d) && s in Keys(d)
    ensures var sec, r := SectionOf(d, s), KeyRenamed(d, s, e, ne);
      && OnlySectionChanged(d, r, s)
      && SectionOf(r, s) == Assign(Unset(sec, e), ne, if Truthy(ne) then ValueOf(d, s, e) else "")
  {
    var sec := SectionOf(d, s);
    var d1 := KeyUnset(d, s, e);
    KeyUnsetSpec(d, s, e);
    AssignWellFormed(d, s, Unset(sec, e)) by { SectionOfUnique(d, s); }
    KeyRenamedTail(d1, s, ne, ValueOf(d, s, e));
    OnlySectionChangedTrans(d, d1, KeyRenamed(d, s, e, ne), s);
  }

  /** The setKey and writeInKey half of rewriteKey: ne is assigned "" and then, if truthy, v. */
  lemma KeyRenamedTail(d1: Document, s: string, ne: string, v: string)
    requires WellFormed(d1) && s in Keys(d1)
    ensures var r := KeyWritten(KeyAdded(d1, s, ne), s, ne, v);
      && OnlySectionChanged(d1, r, s)
      && SectionOf(r, s) == Assign(SectionOf(d1, s), ne, if Truthy(ne) then v else "")
  {
    var sec1 := SectionOf(d1, s);
    var d2 := KeyAdded(d1, s, ne);
    KeyAddedSpec(d1, s, ne);
    var sec2 := Assign(sec1, ne, "");
    if Truthy(ne) {
      assert ne in Keys(sec2);
      SetSpec(d2, s, Assign(sec2, ne, v));
      AssignAssign(sec1, ne, "", v);
      OnlySectionChangedTrans(d1, d2, KeyWritten(d2, s, ne, v), s);
    }
  }

  lemma OnlySectionChangedTrans(d: Document, d1: Document, d2: Document, s: string)
    requires OnlySectionChanged(d, d1, s) && OnlySectionChanged(d1, d2, s)
    ensures OnlySectionChanged(d, d2, s)
  {
    assert |d1| == |d| by { assert |Keys(d1)| == |Keys(d)|; }
    forall i | 0 <= i < |d| && d[i].0 != s ensures d2[i] == d[i] {
      assert d1[i] == d[i];
    }
  }

  lemma OnlySectionChangedLookup(d: Document, r: Document, s: string, t: string)
    requires OnlySectionChanged(d, r, s) && t != s
    ensures Lookup(r, t) == Lookup(d, t)
  {
    if t in Keys(d) {
      assert d[IndexOf(d, t)] == r[IndexOf(d, t)];
    }
  }

  /**
   * FileIni::moveKey(s, e, ns), section s present. With ns another present
   * section, e leaves s and ns receives it with its value, as setKey assigns
   * it; with ns == s, e goes to the end of s; with ns absent, e is simply lost.
   * No section other than s and ns changes.
   */
  lemma KeyMovedSpec(d: Document, s: string, e: string, ns: string)
    requires WellFormed(d) && s in Keys(d)
    ensures var sec, v, r := SectionOf(d, s), ValueOf(d, s, e), KeyMoved(d, s, e, ns);
      && Keys(r) == Keys(d)
      && (forall t :: t != s && t != ns ==> Lookup(r, t) == Lookup(d, t))
      && (ns !in Keys(d) ==> r == KeyUnset(d, s, e))
      && (ns in Keys(d) && ns != s ==>
            SectionOf(r, s) == Unset(sec, e) && SectionOf(r, ns) == Assign(SectionOf(d, ns), e, v))
      && (ns == s ==> SectionOf(r, s) == Unset(sec, e) + [(e, v)])
  {
    var sec, v := SectionOf(d, s), ValueOf(d, s, e);
    var d1 := KeyUnset(d, s, e);
    KeyUnsetSpec(d, s, e);
    var r := KeyMoved(d, s, e, ns);
    if ns in Keys(d) {
      var x := SectionOf(d1, ns);
      assert Merge(x, [(e, v)]) == Assign(x, e, v);
      SetSpec(d1, ns, Assign(x, e, v));
      if ns != s {
        OnlySectionChangedLookup(d, d1, s, ns);
        OnlySectionChangedLookup(d1, r, ns, s);
      } else {
        SectionOfUnique(d, s);
        assert e !in Keys(Unset(sec, e));
      }
      forall t | t != s && t != ns ensures Lookup(r, t) == Lookup(d, t) {
        OnlySectionChangedLookup(d, d1, s, t);
        OnlySectionChangedLookup(d1, r, ns, t);
      }
    } else {
      forall t | t != s && t != ns ensures Lookup(r, t) == Lookup(d, t) {
        OnlySectionChangedLookup(d, d1, s, t);
      }
    }
  }

  /**
   * FileIni::beforeKey(s, e, b), e and b distinct keys of section s: e ends
   * immediately before b with its value; with e taken out the section is as it
   * was with e taken out; no other section changes.
   */
  lemma KeyMovedBeforeSpec(d: Document, s: string, e: string, b: string)
    requires WellFormed(d) && s in Keys(d)
    requires e in Keys(SectionOf(d, s)) && b in Keys(SectionOf(d, s)) && e != b
    ensures var sec, r := SectionOf(d, s), KeyMovedBefore(d, s, e, b);
      && OnlySectionChanged(d, r, s)
      && IndexOf(SectionOf(r, s), e) + 1 == IndexOf(SectionOf(r, s), b)
      && Lookup(SectionOf(r, s), e) == Lookup(sec, e)
      && Unset(SectionOf(r, s), e) == Unset(sec, e)
      && multiset(Keys(SectionOf(r, s))) == multiset(Keys(sec))
  {
    var sec := SectionOf(d, s);
    SectionOfUnique(d, s);
    MovedBeforeSpec(sec, e, b, LookupOr(sec, e, ""));
    SetSpec(d, s, MovedBefore(sec, e, b, LookupOr(sec, e, "")));
  }

  /**
   * FileIni::afterKey(s, e, a), e and a distinct keys of section s: it is a
   * that moves, to immediately before e (e immediately follows a).
   */
  lemma KeyMovedAfterSpec(d: Document, s: string, e: string, a: string)
    requires WellFormed(d) && s in Keys(d)
    requires e in Keys(SectionOf(d, s)) && a in Keys(SectionOf(d, s)) && e != a
    ensures var sec, r := SectionOf(d, s), KeyMovedAfter(d, s, e, a);
      && OnlySectionChanged(d, r, s)
      && IndexOf(SectionOf(r, s), a) + 1 == IndexOf(SectionOf(r, s), e)
      && Lookup(SectionOf(r, s), a) == Lookup(sec, a)
      && Unset(SectionOf(r, s), a) == Unset(sec, a)
      && multiset(Keys(SectionOf(r, s))) == multiset(Keys(sec))
  {
    var sec := SectionOf(d, s);
    SectionOfUnique(d, s);
    MovedBeforeSpec(sec, a, e, LookupOr(sec, a, ""));
    SetSpec(d, s, MovedBefore(sec, a, e, LookupOr(sec, a, "")));
  }

  // ---------------------------------------------------------------------------
  // Navigation: hasNext, getNext, keyHasNext, getNextKey
  // ---------------------------------------------------------------------------

  /**
   * What FileIni::getNext returns: after the hasNext guard its loop stops at
   * position sectionIndex(s), so the section returned is s itself
   * (GetNextReturnsItself, GetNextCounterexample).
   */
  function GetNextAsWritten(d: Document, s: string): (r: Option<Section>)
    ensures r.Some? <==> HasSuccessor(d, s)
  {
    if HasSuccessor(d, s) then Some(d[IndexOf(d, s)].1) else None
  }

  /**
   * The section that follows s, which getNext is documented to return
   * (NextSectionAfterBefore, NextSectionAfterAfter).
   */
  function NextSection(d: Document, s: string): (r: Option<Section>)
    ensures r.Some? <==> HasSuccessor(d, s)
  {
    Successor(d, s)
  }

  /**
   * What FileIni::getNextKey returns: elementIndex answers 0 for every truthy
   * e (its test `$k = $element` assigns), so the value returned is that of the
   * second key of the section, or of the first when e is falsy
   * (GetNextKeyCounterexample; GetNextKeyRightOnFirstKey for where it is right).
   */
  function GetNextKeyAsWritten(d: Document, s: string, e: string): (r: Option<string>)
    ensures r.Some? <==> HasSuccessor(SectionOf(d, s), e)
  {
    var sec := SectionOf(d, s);
    if HasSuccessor(sec, e) then Some(sec[if Truthy(e) then 1 else 0].1) else None
  }

  /**
   * The value of the key that follows e in section s, which getNextKey is
   * documented to return (NextKeyAfterBeforeKey).
   */
  function NextKey(d: Document, s: string, e: string): (r: Option<string>)
    ensures r.Some? <==> HasSuccessor(SectionOf(d, s), e)
  {
    Successor(SectionOf(d, s), e)
  }

  /** After before(s, p), the section getNext should return for s is p. */
  lemma NextSectionAfterBefore(d: Document, s: string, p: string)
    requires Unique(d) && s in Keys(d) && p in Keys(d) && s != p
    ensures NextSection(SectionMovedBefore(d, s, p), s) == Lookup(d, p)
  {
    SuccessorAfterMove(d, s, p, SectionOf(d, s));
  }

  /** After after(s, p), the section getNext should return for p is s. */
  lemma NextSectionAfterAfter(d: Document, s: string, p: string)
    requires Unique(d) && s in Keys(d) && p in Keys(d) && s != p
    ensures NextSection(SectionMovedAfter(d, s, p), p) == Lookup(d, s)
  {
    SuccessorAfterMove(d, p, s, SectionOf(d, p));
  }

  /** After beforeKey(s, e, b), the key that follows e is b, with its value. */
  lemma NextKeyAfterBeforeKey(d: Document, s: string, e: string, b: string)
    requires WellFormed(d) && s in Keys(d)
    requires e in Keys(SectionOf(d, s)) && b in Keys(SectionOf(d, s)) && e != b
    ensures NextKey(KeyMovedBefore(d, s, e, b), s, e) == Lookup(SectionOf(d, s), b)
  {
    var sec := SectionOf(d, s);
    SectionOfUnique(d, s);
    SuccessorAfterMove(sec, e, b, LookupOr(sec, e, ""));
    SetSpec(d, s, MovedBefore(sec, e, b, LookupOr(sec, e, "")));
  }

  /** A renamed section is the last one: hasNext is false for it. */
  lemma RenamedIsLast(d: Document, s: string, ns: string)
    requires WellFormed(d) && (ns == s || ns !in Keys(d))
    ensures var r := Renamed(d, s, ns); ns in Keys(r) && !HasSuccessor(r, ns)
  {
    RenamedSpec(d, s, ns);
    var r := Renamed(d, s, ns);
    LookupAt(r, |r| - 1) by { OperationsWellFormed(d, s, ns, "", "", [], []); }
  }

  /** Whenever hasNext(s) holds, getNext(s) returns section s itself. */
  lemma GetNextReturnsItself(d: Document, s: string)
    ensures HasSuccessor(d, s) ==> GetNextAsWritten(d, s) == Lookup(d, s)
  {
  }

  /** A body on which getNext("ruby") does not return the section after "ruby". */
  lemma GetNextCounterexample()
    ensures var d: Document := [("ruby", [("ide", "rubymine")]), ("js", [("ide", "webstorm")])];
      GetNextAsWritten(d, "ruby") == Some([("ide", "rubymine")])
      && NextSection(d, "ruby") == Some([("ide", "webstorm")])
  {
    var d: Document := [("ruby", [("ide", "rubymine")]), ("js", [("ide", "webstorm")])];
    assert Keys(d) == ["ruby", "js"];
    PositionIs(Keys(d), "ruby", 0);
  }

  /** A section where getNextKey(s, e) does not return the value of the key after e. */
  lemma GetNextKeyCounterexample()
    ensures var d: Document := [("bash", [("ide", "terminal"), ("framework", "file system"), ("orm", "apt-get")])];
      GetNextKeyAsWritten(d, "bash", "framework") == Some("file system")
      && NextKey(d, "bash", "framework") == Some("apt-get")
  {
    var sec: Section := [("ide", "terminal"), ("framework", "file system"), ("orm", "apt-get")];
    var d: Document := [("bash", sec)];
    assert Keys(d) == ["bash"];
    PositionIs(Keys(d), "bash", 0);
    assert SectionOf(d, "bash") == sec;
    assert Keys(sec) == ["ide", "framework", "orm"];
    PositionIs(Keys(sec), "framework", 1);
  }

  /** As written, getNextKey(s, e) is right when e is the first key of the section. */
  lemma GetNextKeyRightOnFirstKey(d: Document, s: string, e: string)
    requires Truthy(e) && IndexOf(SectionOf(d, s), e) == 0
    ensures GetNextKeyAsWritten(d, s, e) == NextKey(d, s, e)
  {
  }

  // ---------------------------------------------------------------------------
  // writeInKey: as written and as documented
  // ---------------------------------------------------------------------------

  /** A non-empty section on which writeInKey creates a key it was only meant to fill. */
  lemma KeyWrittenCounterexample()
    ensures var d: Document := [("bash", [("ide", "terminal")])];
      KeyWritten(d, "bash", "orm", "apt-get") == [("bash", [("ide", "terminal"), ("orm", "apt-get")])]
  {
    var d: Document := [("bash", [("ide", "terminal")])];
    assert Keys(d) == ["bash"];
    PositionIs(Keys(d), "bash", 0);
    assert SectionOf(d, "bash") == [("ide", "terminal")];
    assert Keys(SectionOf(d, "bash")) == ["ide"];
    assert Assign(SectionOf(d, "bash"), "orm", "apt-get") == [("ide", "terminal"), ("orm", "apt-get")];
  }

  /** writeInKey with the comparison `$k == $element` it evidently meant: only an existing key is written. */
  function KeyOverwritten(d: Document, s: string, e: string, c: string): (r: Document)
  {
    if e in Keys(SectionOf(d, s)) then AssignIn(d, s, e, c) else d
  }

  /**
   * The corrected writeInKey never adds or removes a key or section: it only
   * replaces the value of e, which then reads c.
   */
  lemma KeyOverwrittenSpec(d: Document, s: string, e: string, c: string)
    requires WellFormed(d)
    ensures var r := KeyOverwritten(d, s, e, c);
      && Keys(r) == Keys(d)
      && (forall t :: Keys(SectionOf(r, t)) == Keys(SectionOf(d, t)))
      && (e in Keys(SectionOf(d, s)) ==>
            && OnlySectionChanged(d, r, s)
            && SectionOf(r, s) == Assign(SectionOf(d, s), e, c)
            && Lookup(SectionOf(r, s), e) == Some(c))
      && (e !in Keys(SectionOf(d, s)) ==> r == d)
  {
    var r := KeyOverwritten(d, s, e, c);
    var sec := SectionOf(d, s);
    if e in Keys(sec) {
      assert s in Keys(d);
      SetSpec(d, s, Assign(sec, e, c));
      forall t ensures Keys(SectionOf(r, t)) == Keys(SectionOf(d, t)) {
        if t != s {
          OnlySectionChangedLookup(d, r, s, t);
        }
      }
    }
  }

  /** Where the key exists and its name is truthy, writeInKey as written does what was meant. */
  lemma KeyWrittenAgreesOnExistingKey(d: Document, s: string, e: string, c: string)
    requires Truthy(e) && e in Keys(SectionOf(d, s))
    ensures KeyWritten(d, s, e, c) == KeyOverwritten(d, s, e, c)
  {
    assert SectionOf(d, s) != [];
  }

  /**
   * rewriteKey is unaffected by the fix for a truthy new name: its setKey has
   * created the key before writeInKey runs.
   */
  lemma KeyRenamedUnaffected(d: Document, s: string, e: string, ne: string)
    requires WellFormed(d) && s in Keys(d) && Truthy(ne)
    ensures var d2 := KeyAdded(KeyUnset(d, s, e), s, ne);
      KeyRenamed(d, s, e, ne) == KeyOverwritten(d2, s, ne, ValueOf(d, s, e))
  {
    var d1 := KeyUnset(d, s, e);
    KeyUnsetSpec(d, s, e);
    assert s in Keys(d1);
    KeyAddedSpec(d1, s, ne) by { OperationsWellFormed(d, s, s, e, "", [], []); }
    KeyWrittenAgreesOnExistingKey(KeyAdded(d1, s, ne), s, ne, ValueOf(d, s, e));
  }

  /** Writing the same value twice is writing it once: the inner loop of writeInKey may repeat. */
  lemma AssignInIdempotent(d: Document, s: string, e: string, c: string)
    ensures AssignIn(AssignIn(d, s, e, c), s, e, c) == AssignIn(d, s, e, c)
  {
    var x := Assign(SectionOf(d, s), e, c);
    AssignAssign(SectionOf(d, s), e, c, c);
    AssignAssign(d, s, x, x);
  }
}

