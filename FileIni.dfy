/**
 * The class FileIni of Dodo-Ini-Manager, over the body of its file.
 *
 * Every operation that changes the file directly (set, rm, before, after,
 * setKey, writeInKey, rewriteInKey, rmKey, beforeKey, afterKey) starts with
 * parse_ini_file(path) and ends with updateFile, which writes
 * createContentFromBody of the new body. get, getKey, hasNext, getNext,
 * keyHasNext and getNextKey only read; rewrite, rewriteKey, moveKey and rmInKey
 * write only by calling the operations that do.
 * Here the parsed body is the field `body` and the written text the field
 * `content`; updateFile sets both.
 *
 * Setting `body` together with `content` is an assumption of the model: that
 * parse_ini_file, which is not modelled, reads the written text back as the
 * body that was written. rewrite, rewriteKey and moveKey rely on it between
 * their steps, each of which reads the file again. IniSerializer.ParseSerialize
 * shows it only for the reader IniSerializer.ParseDoc and for bodies whose
 * names, keys and values avoid the format's delimiters.
 */
module DodoIniManager {
  import opened PhpArray
  import opened IniDocument
  import opened IniSerializer

  /**
   * The reordering loop of before, after, beforeKey and afterKey: copy every
   * entry but x, and at p emit x (with value vx) and then p (with value vp).
   */
  method PlaceBefore<V>(m: seq<(string, V)>, x: string, p: string, vx: V, vp: V) returns (t: seq<(string, V)>)
    requires Unique(m)
    requires p in Keys(m) ==> Lookup(m, p) == Some(vp)
    ensures t == MovedBefore(m, x, p, vx)
  {
    t := [];
    var i := 0;
    while i < |m|
      invariant 0 <= i <= |m|
      invariant t == Placed(m[..i], x, p, vx)
    {
      var (k, v) := m[i];
      assert m[..i + 1] == m[..i] + [m[i]];
      UniquePrefix(m, i + 1);
      PlacedStep(m[..i], m[i], x, p, vx);
      if k != x {
        if k != p {
          t := Assign(t, k, v);
        } else {
          LookupAt(m, i);
          t := Assign(t, x, vx);
          t := Assign(t, p, vp);
        }
      }
      i := i + 1;
    }
    assert m[..i] == m;
    PlacedIsMovedBefore(m, x, p, vx);
  }

  /** The rebuilding loop of beforeKey and afterKey: every entry copied, the one named k replaced by v. */
  method ReplaceValue<V>(m: seq<(string, V)>, k: string, v: V) returns (t: seq<(string, V)>)
    requires Unique(m)
    ensures t == if k in Keys(m) then Assign(m, k, v) else m
  {
    t := [];
    var i := 0;
    while i < |m|
      invariant 0 <= i <= |m|
      invariant t == if k in Keys(m[..i]) then Assign(m[..i], k, v) else m[..i]
    {
      var (key, value) := m[i];
      assert m[..i + 1] == m[..i] + [m[i]];
      UniquePrefix(m, i + 1);
      UniqueInit(m[..i], m[i]);
      IndexOfAppend(m[..i], m[i], k);
      IndexOfAppend(m[..i], m[i], key);
      AssignAppend(m[..i], m[i], k, v);
      if key == k {
        t := Assign(t, k, v);
      } else {
        IndexOfAppend(t, (key, value), key);
        t := Assign(t, key, value);
      }
      i := i + 1;
    }
    assert m[..i] == m;
  }

  class FileIni {
    /** What parse_ini_file returns for the file at this object's path. */
    var body: Document
    /** The text of the file, as updateFile last wrote it. */
    var content: string

    /** Section names are unique and so are the keys of each section, as in any PHP array. */
    ghost predicate Valid()
      reads this
    {
      WellFormed(body)
    }

    /** An object over a file whose text is `text` and whose parse is `parsed`. */
    constructor (parsed: Document, text: string)
      requires WellFormed(parsed)
      ensures Valid() && body == parsed && content == text
    {
      body := parsed;
      content := text;
    }

    // -------------------------------------------------------------------------
    // Private API
    // -------------------------------------------------------------------------

    /** createContentFromBody: a header per section, a line per key, a blank line after a section's last key. */
    static method CreateContentFromBody(b: Document) returns (c: string)
      requires WellFormed(b)
      ensures c == Serialize(b)
    {
      c := "";
      var n := 0;
      while n < |b|
        invariant 0 <= n <= |b|
        invariant c == Serialize(b[..n])
      {
        var key, value := b[n].0, b[n].1;
        assert Unique(value);
        var before := c;
        PartialSectionEnds(key, value);
        c := c + "[" + key + "]\n";
        var j := 0;
        while j < |value|
          invariant 0 <= j <= |value|
          invariant c == before + PartialSection(key, value, j)
        {
          var lastKey := value[|value| - 1].0;
          var k, v := value[j].0, value[j].1;
          ContentStep(c, before, key, value, j);
          c := c + k + " = " + "\"" + v + "\"\n";
          if k == lastKey {
            c := c + "\n";
          }
          j := j + 1;
        }
        SerializePrefixStep(b, n);
        n := n + 1;
      }
      assert b[..n] == b;
    }

    /** updateFile: the file now holds the text of b, and reads back as b. */
    method UpdateFile(b: Document)
      requires WellFormed(b)
      modifies this
      ensures Valid() && body == b && content == Serialize(b)
    {
      var c := CreateContentFromBody(b);
      content := c;
      body := b;
    }

    /** sectionIndex: the position of section s, or -1. */
    method SectionIndex(s: string) returns (r: int)
      ensures r == IndexOf(body, s)
    {
      var i := 0;
      while i < |body|
        invariant 0 <= i <= |body|
        invariant forall j :: 0 <= j < i ==> body[j].0 != s
      {
        if body[i].0 == s {
          return i;
        }
        i := i + 1;
      }
      return -1;
    }

    /**
     * elementIndex. Its test `$k = $element` assigns, so for a truthy e it
     * answers 0 as soon as section s has a key, and -1 otherwise.
     */
    method ElementIndex(s: string, e: string) returns (r: int)
      requires Valid()
      ensures r == if SectionOf(body, s) != [] && Truthy(e) then 0 else -1
    {
      var i := 0;
      var n := 0;
      while n < |body|
        invariant 0 <= n <= |body|
        invariant Truthy(e) ==> i == 0
        invariant 0 <= IndexOf(body, s) < n ==> SectionOf(body, s) == [] || !Truthy(e)
      {
        if body[n].0 == s {
          LookupAt(body, n);
          var value := body[n].1;
          var j := 0;
          while j < |value|
            invariant 0 <= j <= |value|
            invariant Truthy(e) ==> i == 0 && j == 0
          {
            if Truthy(e) {
              return i;
            }
            i := i + 1;
            j := j + 1;
          }
        }
        n := n + 1;
      }
      return -1;
    }

    // -------------------------------------------------------------------------
    // Sections
    // -------------------------------------------------------------------------

    /** get: the section named s, None for PHP's null. */
    method Get(s: string) returns (r: Option<Section>)
      ensures r == Lookup(body, s)
    {
      r := Lookup(body, s);
    }

    /** set: section s becomes a, in place if it exists, appended otherwise (null and [] both give an empty section). */
    method Set(s: string, a: Section)
      requires Valid() && Unique(a)
      modifies this
      ensures Valid() && body == Assign(old(body), s, a) && content == Serialize(body)
    {
      var b := Assign(body, s, []);
      if a != [] {
        AssignAssign(body, s, [], a);
        b := Assign(b, s, a);
      }
      AssignWellFormed(body, s, a);
      UpdateFile(b);
    }

    /** rm: section s is removed. */
    method Rm(s: string)
      requires Valid()
      modifies this
      ensures Valid() && body == Unset(old(body), s) && content == Serialize(body)
    {
      UnsetWellFormed(body, s);
      UpdateFile(Unset(body, s));
    }

    /** rewrite: get s, rm s, set ns to what s held. */
    method Rewrite(s: string, ns: string)
      requires Valid()
      modifies this
      ensures Valid() && body == Renamed(old(body), s, ns) && content == Serialize(body)
    {
      SectionOfUnique(body, s);
      var t := Get(s);
      Rm(s);
      Set(ns, if t.Some? then t.value else []);
    }

    /** before: section s moved to immediately before section p. */
    method Before(s: string, p: string)
      requires Valid()
      modifies this
      ensures Valid() && body == SectionMovedBefore(old(body), s, p) && content == Serialize(body)
    {
      var section := Get(s);
      var pivot := Get(p);
      var t := PlaceBefore(body, s, p, if section.Some? then section.value else [], if pivot.Some? then pivot.value else []);
      SectionOfUnique(body, s);
      MovedBeforeWellFormed(body, s, p, SectionOf(body, s));
      UpdateFile(t);
    }

    /** after: section p moved to immediately before section s, so that s comes after it. */
    method After(s: string, p: string)
      requires Valid()
      modifies this
      ensures Valid() && body == SectionMovedAfter(old(body), s, p) && content == Serialize(body)
    {
      var section := Get(s);
      var pivot := Get(p);
      var t := PlaceBefore(body, p, s, if pivot.Some? then pivot.value else [], if section.Some? then section.value else []);
      SectionOfUnique(body, p);
      MovedBeforeWellFormed(body, p, s, SectionOf(body, p));
      UpdateFile(t);
    }

    /** hasNext: section s exists and is not the last section. */
    method HasNext(s: string) returns (r: bool)
      ensures r == HasSuccessor(body, s)
    {
      var i := 0;
      while i < |body|
        invariant 0 <= i <= |body|
        invariant forall j :: 0 <= j < i && body[j].0 == s ==> |body| - 1 <= j
      {
        if body[i].0 == s {
          if |body| - 1 > i {
            return true;
          }
        }
        i := i + 1;
      }
      return false;
    }

    /** getNext: after the hasNext guard, the section at sectionIndex(s), which is s itself. */
    method GetNext(s: string) returns (r: Option<Section>)
      ensures r == GetNextAsWritten(body, s)
    {
      var has := HasNext(s);
      if !has {
        return None;
      }
      var index := SectionIndex(s);
      r := None;
      var i := 0;
      while i < |body| && r.None?
        invariant 0 <= i <= |body|
        invariant r.None? ==> i <= index
        invariant r.Some? ==> r == Some(body[index].1)
      {
        if i == index {
          r := Some(body[i].1);
        }
        i := i + 1;
      }
    }

    // -------------------------------------------------------------------------
    // Keys
    // -------------------------------------------------------------------------

    /** getKey: the value of key e of section s, None for PHP's null. */
    method GetKey(s: string, e: string) returns (r: Option<string>)
      ensures r == Lookup(SectionOf(body, s), e)
    {
      r := Lookup(SectionOf(body, s), e);
    }

    /** setKey with a key name: e set to "" in section s, if that section exists. */
    method SetKey(s: string, e: string)
      requires Valid()
      modifies this
      ensures Valid() && body == KeyAdded(old(body), s, e) && content == Serialize(body)
    {
      var d := body;
      var b := body;
      var n := 0;
      while n < |d|
        invariant 0 <= n <= |d|
        invariant b == if 0 <= IndexOf(d, s) < n then AssignIn(d, s, e, "") else d
      {
        if d[n].0 == s {
          LookupAt(d, n);
          b := AssignIn(b, s, e, "");
        }
        n := n + 1;
      }
      KeyAddedWellFormed(d, s, e);
      UpdateFile(b);
    }

    /** setKey with an array: every pair of ps assigned in order into section s, if that section exists. */
    method SetKeyArray(s: string, ps: Section)
      requires Valid()
      modifies this
      ensures Valid() && body == KeysMerged(old(body), s, ps) && content == Serialize(body)
    {
      var d := body;
      var b := body;
      var n := 0;
      while n < |d|
        invariant 0 <= n <= |d|
        invariant b == if 0 <= IndexOf(d, s) < n then KeysMerged(d, s, ps) else d
      {
        if d[n].0 == s {
          LookupAt(d, n);
          var sec := SectionOf(d, s);
          AssignSame(d, s, sec);
          var j := 0;
          while j < |ps|
            invariant 0 <= j <= |ps|
            invariant b == Assign(d, s, Merge(sec, ps[..j]))
          {
            MergeStep(d, s, sec, ps, j);
            b := AssignIn(b, s, ps[j].0, ps[j].1);
            j := j + 1;
          }
          assert ps[..j] == ps;
        }
        n := n + 1;
      }
      OperationsWellFormed(d, s, s, "", "", ps, []);
      UpdateFile(b);
    }

    /**
     * writeInKey: for every key of section s the test `$k = $element` is the
     * truth value of e, so e is set to c (created if missing) when s has a
     * key and e is truthy.
     */
    method WriteInKey(s: string, e: string, c: string)
      requires Valid()
      modifies this
      ensures Valid() && body == KeyWritten(old(body), s, e, c) && content == Serialize(body)
    {
      var d := body;
      var b := body;
      var n := 0;
      while n < |d|
        invariant 0 <= n <= |d|
        invariant b == if 0 <= IndexOf(d, s) < n then KeyWritten(d, s, e, c) else d
      {
        if d[n].0 == s {
          LookupAt(d, n);
          var value := d[n].1;
          var j := 0;
          while j < |value|
            invariant 0 <= j <= |value|
            invariant b == if j > 0 && Truthy(e) then AssignIn(d, s, e, c) else d
          {
            if Truthy(e) {
              AssignInIdempotent(d, s, e, c);
              b := AssignIn(b, s, e, c);
            }
            j := j + 1;
          }
        }
        n := n + 1;
      }
      KeyWrittenWellFormed(d, s, e, c);
      UpdateFile(b);
    }

    /** rewriteInKey: the same loop as writeInKey. */
    method RewriteInKey(s: string, e: string, c: string)
      requires Valid()
      modifies this
      ensures Valid() && body == KeyWritten(old(body), s, e, c) && content == Serialize(body)
    {
      WriteInKey(s, e, c);
    }

    /** rmInKey: rewriteInKey with the empty value; the key stays. */
    method RmInKey(s: string, e: string)
      requires Valid()
      modifies this
      ensures Valid() && body == KeyWritten(old(body), s, e, "") && content == Serialize(body)
    {
      RewriteInKey(s, e, "");
    }

    /** rmKey: key e removed from section s. */
    method RmKey(s: string, e: string)
      requires Valid()
      modifies this
      ensures Valid() && body == KeyUnset(old(body), s, e) && content == Serialize(body)
    {
      OperationsWellFormed(body, s, s, e, "", [], []);
      UpdateFile(KeyUnset(body, s, e));
    }

    /** rewriteKey: getKey, rmKey, setKey, writeInKey. */
    method RewriteKey(s: string, e: string, ne: string)
      requires Valid()
      modifies this
      ensures Valid() && body == KeyRenamed(old(body), s, e, ne) && content == Serialize(body)
    {
      var v := GetKey(s, e);
      RmKey(s, e);
      SetKey(s, ne);
      WriteInKey(s, ne, if v.Some? then v.value else "");
    }

    /** keyHasNext: key e exists in section s and is not its last key. */
    method KeyHasNext(s: string, e: string) returns (r: bool)
      requires Valid()
      ensures r == HasSuccessor(SectionOf(body, s), e)
    {
      var i := 0;
      var n := 0;
      while n < |body|
        invariant 0 <= n <= |body|
        invariant 0 <= IndexOf(body, s) < n ==> !HasSuccessor(SectionOf(body, s), e)
        invariant !(0 <= IndexOf(body, s) < n) ==> i == 0
      {
        if body[n].0 == s {
          LookupAt(body, n);
          var value := body[n].1;
          var j := 0;
          while j < |value|
            invariant 0 <= j <= |value| && i == j
            invariant forall t :: 0 <= t < j && value[t].0 == e ==> |value| - 1 <= t
          {
            if value[j].0 == e {
              if |value| - 1 > i {
                return true;
              }
            }
            i := i + 1;
            j := j + 1;
          }
        }
        n := n + 1;
      }
      return false;
    }

    /**
     * getNextKey: after the keyHasNext guard, the value at position
     * elementIndex(s, e) + 1 of section s, that is position 1 for a truthy e.
     */
    method GetNextKey(s: string, e: string) returns (r: Option<string>)
      requires Valid()
      ensures r == GetNextKeyAsWritten(body, s, e)
    {
      var has := KeyHasNext(s, e);
      if !has {
        return None;
      }
      var index := ElementIndex(s, e);
      r := None;
      var i := 0;
      var n := 0;
      while n < |body| && r.None?
        invariant 0 <= n <= |body|
        invariant r.None? ==> n <= IndexOf(body, s) && i == 0
        invariant r.Some? ==> r == GetNextKeyAsWritten(body, s, e)
      {
        if body[n].0 == s {
          LookupAt(body, n);
          var value := body[n].1;
          var j := 0;
          while j < |value| && r.None?
            invariant 0 <= j <= |value|
            invariant r.None? ==> i == j && j <= index + 1
            invariant r.Some? ==> r == Some(value[index + 1].1)
          {
            if index + 1 == i {
              r := Some(value[j].1);
            }
            i := i + 1;
            j := j + 1;
          }
        }
        n := n + 1;
      }
    }

    /** moveKey: getKey, rmKey, then setKey of the pair into section ns. */
    method MoveKey(s: string, e: string, ns: string)
      requires Valid()
      modifies this
      ensures Valid() && body == KeyMoved(old(body), s, e, ns) && content == Serialize(body)
    {
      var v := GetKey(s, e);
      RmKey(s, e);
      SetKeyArray(ns, [(e, if v.Some? then v.value else "")]);
    }

    /** beforeKey: key e moved to immediately before key b, within section s. */
    method BeforeKey(s: string, e: string, b: string)
      requires Valid()
      modifies this
      ensures Valid() && body == KeyMovedBefore(old(body), s, e, b) && content == Serialize(body)
    {
      var element := GetKey(s, e);
      var pivot := GetKey(s, b);
      var section := Get(s);
      var sec := if section.Some? then section.value else [];
      SectionOfUnique(body, s);
      var tsec := PlaceBefore(sec, e, b, if element.Some? then element.value else "", if pivot.Some? then pivot.value else "");
      var t := ReplaceValue(body, s, tsec);
      OperationsWellFormed(body, s, b, e, "", [], []);
      UpdateFile(t);
    }

    /** afterKey: key a moved to immediately before key e, within section s, so that e comes after it. */
    method AfterKey(s: string, e: string, a: string)
      requires Valid()
      modifies this
      ensures Valid() && body == KeyMovedAfter(old(body), s, e, a) && content == Serialize(body)
    {
      var element := GetKey(s, e);
      var pivot := GetKey(s, a);
      var section := Get(s);
      var sec := if section.Some? then section.value else [];
      SectionOfUnique(body, s);
      var tsec := PlaceBefore(sec, a, e, if pivot.Some? then pivot.value else "", if element.Some? then element.value else "");
      var t := ReplaceValue(body, s, tsec);
      OperationsWellFormed(body, s, a, e, "", [], []);
      UpdateFile(t);
    }
  }
}
