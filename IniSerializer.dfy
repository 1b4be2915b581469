/**
 * The text FileIni::createContentFromBody writes for a body:
 *
 *   [name]              one header line per section
 *   key = "value"       one line per key, the value quoted verbatim
 *                       a blank line after the last key of a section
 *
 * and a reader for exactly that format, proved to be its inverse on every
 * body whose names and values avoid the format's delimiters.
 */
module IniSerializer {
  import opened PhpArray
  import opened IniDocument

  function Header(s: string): (r: string)
  {
    "[" + s + "]\n"
  }

  function KeyLine(k: string, v: string): (r: string)
  {
    k + " = \"" + v + "\"\n"
  }

  function KeyLines(sec: Section): (r: string)
  {
    if sec == [] then "" else KeyLine(sec[0].0, sec[0].1) + KeyLines(sec[1..])
  }

  /** A section: its header, its key lines, and a blank line only if it has keys. */
  function SectionText(s: string, sec: Section): (r: string)
  {
    Header(s) + KeyLines(sec) + (if sec == [] then "" else "\n")
  }

  /** The whole file: the sections' texts one after the other. */
  function Serialize(d: Document): (r: string)
  {
    if d == [] then "" else SectionText(d[0].0, d[0].1) + Serialize(d[1..])
  }

  // ---------------------------------------------------------------------------
  // Serialization distributes over concatenation
  // ---------------------------------------------------------------------------

  lemma {:induction false} KeyLinesConcat(a: Section, b: Section)
    ensures KeyLines(a + b) == KeyLines(a) + KeyLines(b)
  {
    if a != [] {
      assert (a + b)[1..] == a[1..] + b;
      KeyLinesConcat(a[1..], b);
    } else {
      assert a + b == b;
    }
  }

  lemma {:induction false} SerializeConcat(a: Document, b: Document)
    ensures Serialize(a + b) == Serialize(a) + Serialize(b)
  {
    if a != [] {
      assert (a + b)[1..] == a[1..] + b;
      SerializeConcat(a[1..], b);
    } else {
      assert a + b == b;
    }
  }

  /** One more key line at the end of a section's lines. */
  lemma KeyLinesSnoc(a: Section, e: (string, string))
    ensures KeyLines(a + [e]) == KeyLines(a) + KeyLine(e.0, e.1)
  {
    KeyLinesConcat(a, [e]);
  }

  /** One more section at the end of the body. */
  lemma SerializeSnoc(a: Document, e: (string, Section))
    ensures Serialize(a + [e]) == Serialize(a) + SectionText(e.0, e.1)
  {
    SerializeConcat(a, [e]);
  }

  /** The text is empty exactly for an empty body, and otherwise opens with a header. */
  lemma SerializeStart(d: Document)
    ensures Serialize(d) == [] <==> d == []
    ensures d != [] ==> Serialize(d)[0] == '['
  {
  }

  /** The text of a section once the loop of createContentFromBody has written its first j keys. */
  function PartialSection(s: string, sec: Section, j: nat): (r: string)
    requires j <= |sec|
  {
    Header(s) + KeyLines(sec[..j]) + (if j == |sec| && j > 0 then "\n" else "")
  }

  /** Writing key j adds its line, and the blank line when it is the last key. */
  lemma PartialSectionStep(s: string, sec: Section, j: nat)
    requires j < |sec|
    ensures PartialSection(s, sec, j + 1) ==
      PartialSection(s, sec, j) + KeyLine(sec[j].0, sec[j].1) + (if j == |sec| - 1 then "\n" else "")
  {
    assert sec[..j + 1] == sec[..j] + [sec[j]];
    KeyLinesSnoc(sec[..j], sec[j]);
  }

  /** The inner loop of createContentFromBody writes key j: its line, then the blank line if it is the last key. */
  lemma ContentStep(c: string, before: string, s: string, sec: Section, j: nat)
    requires Unique(sec) && j < |sec| && c == before + PartialSection(s, sec, j)
    ensures var c1 := c + sec[j].0 + " = " + "\"" + sec[j].1 + "\"\n";
      (if sec[j].0 == sec[|sec| - 1].0 then c1 + "\n" else c1) == before + PartialSection(s, sec, j + 1)
  {
    PartialSectionStep(s, sec, j);
    assert sec[j].0 == sec[|sec| - 1].0 <==> j == |sec| - 1;
  }

  /** The outer loop of createContentFromBody appends section n. */
  lemma SerializePrefixStep(b: Document, n: nat)
    requires n < |b|
    ensures Serialize(b[..n + 1]) == Serialize(b[..n]) + SectionText(b[n].0, b[n].1)
  {
    assert b[..n + 1] == b[..n] + [b[n]];
    SerializeSnoc(b[..n], b[n]);
  }

  /** Before any key the loop has written the header; after all of them, the whole section. */
  lemma PartialSectionEnds(s: string, sec: Section)
    ensures PartialSection(s, sec, 0) == Header(s)
    ensures PartialSection(s, sec, |sec|) == SectionText(s, sec)
  {
    assert sec[..0] == [];
    assert sec[..|sec|] == sec;
  }

  // ---------------------------------------------------------------------------
  // Reading the format back
  // ---------------------------------------------------------------------------

  /** Names the header line can carry. */
  predicate NameOk(s: string)
  {
    ']' !in s && '\n' !in s
  }

  /** Keys a key line can carry: no space (it ends the key) and no header look. */
  predicate KeyOk(k: string)
  {
    ' ' !in k && '\n' !in k && (|k| > 0 ==> k[0] != '[')
  }

  /** Values the quotes can carry. */
  predicate ValueOk(v: string)
  {
    '"' !in v && '\n' !in v
  }

  predicate SectionOk(sec: Section)
  {
    forall j :: 0 <= j < |sec| ==> KeyOk(sec[j].0) && ValueOk(sec[j].1)
  }

  /** A body whose text can be read back unambiguously. */
  predicate Writable(d: Document)
  {
    forall i :: 0 <= i < |d| ==> NameOk(d[i].0) && SectionOk(d[i].1)
  }

  /** Position of the first c in t, or |t|. */
  function Until(t: string, c: char): (r: nat)
    ensures r <= |t| && c !in t[..r] && (r < |t| ==> t[r] == c)
  {
    if t == [] then 0
    else if t[0] == c then 0
    else
      var r := 1 + Until(t[1..], c);
      assert t[..r] == [t[0]] + t[1..][..r - 1];
      r
  }

  lemma UntilAt(a: string, c: char, b: string)
    requires c !in a
    ensures Until(a + [c] + b, c) == |a|
  {
    var t := a + [c] + b;
    assert t[|a|] == c;
    assert t[..|a|] == a;
  }

  /**
   * The key lines at the start of t, up to and including the blank line that
   * ends a section, or up to the next header or the end of the text; with
   * what is left of t.
   */
  function ParseKeys(t: string): (r: Option<(Section, string)>)
    ensures r.Some? ==> |r.value.1| <= |t|
    decreases |t|
  {
    if t == [] || t[0] == '[' then Some(([], t))
    else if t[0] == '\n' then Some(([], t[1..]))
    else
      var i := Until(t, ' ');
      if i + 4 <= |t| && t[i] == ' ' && t[i + 1] == '=' && t[i + 2] == ' ' && t[i + 3] == '"' then
        var rest := t[i + 4..];
        var j := Until(rest, '"');
        if j + 2 <= |rest| && rest[j] == '"' && rest[j + 1] == '\n' then
          match ParseKeys(rest[j + 2..])
          case None => None
          case Some(p) => Some(([(t[..i], rest[..j])] + p.0, p.1))
        else None
      else None
  }

  /** The name in the header line at the start of t, with the rest of t. */
  function ParseHeaderLine(t: string): (r: Option<(string, string)>)
    ensures r.Some? ==> |r.value.1| < |t|
  {
    if t == [] || t[0] != '[' then None
    else
      var i := Until(t, ']');
      if i + 2 <= |t| && t[i + 1] == '\n' then Some((t[1..i], t[i + 2..])) else None
  }

  /** The body a text in this format describes, or None when it is not in it. */
  function ParseDoc(t: string): (r: Option<Document>)
    decreases |t|
  {
    if t == [] then Some([])
    else
      match ParseHeaderLine(t)
      case None => None
      case Some(h) =>
        match ParseKeys(h.1)
        case None => None
        case Some(p) =>
          match ParseDoc(p.1)
          case None => None
          case Some(d) => Some([(h.0, p.0)] + d)
  }

  /** The key part of a key line: the key, then the separator, then the rest. */
  lemma KeyPart(k: string, rest: string)
    requires KeyOk(k)
    ensures var t := k + " = \"" + rest;
      && t != [] && t[0] != '[' && t[0] != '\n'
      && Until(t, ' ') == |k| && |k| + 4 <= |t|
      && t[|k|] == ' ' && t[|k| + 1] == '=' && t[|k| + 2] == ' ' && t[|k| + 3] == '"'
      && t[..|k|] == k && t[|k| + 4..] == rest
  {
    var t := k + " = \"" + rest;
    assert t == k + [' '] + ("= \"" + rest);
    UntilAt(k, ' ', "= \"" + rest);
    if |k| > 0 {
      assert t[0] == k[0];
    }
  }

  /** The value part of a key line: the value, the closing quote and newline, then the rest. */
  lemma ValuePart(v: string, w: string)
    requires ValueOk(v)
    ensures var rest := v + "\"\n" + w;
      && Until(rest, '"') == |v| && |v| + 2 <= |rest|
      && rest[|v|] == '"' && rest[|v| + 1] == '\n' && rest[..|v|] == v && rest[|v| + 2..] == w
  {
    var rest := v + "\"\n" + w;
    assert rest == v + ['"'] + ("\n" + w);
    UntilAt(v, '"', "\n" + w);
  }

  /** A key line before some text: the key part, then the value part and the text. */
  lemma KeyLineSplit(k: string, v: string, w: string)
    ensures KeyLine(k, v) + w == k + " = \"" + (v + "\"\n" + w)
  {
    var a, b, c := k + " = \"", v, "\"\n";
    assert KeyLine(k, v) == a + b + c;
    assert a + b + c + w == a + (b + c + w);
  }

  lemma ParseKeyLine(k: string, v: string, w: string, sec: Section, tail: string)
    requires KeyOk(k) && ValueOk(v) && ParseKeys(w) == Some((sec, tail))
    ensures ParseKeys(KeyLine(k, v) + w) == Some(([(k, v)] + sec, tail))
  {
    var rest := v + "\"\n" + w;
    KeyPart(k, rest);
    ValuePart(v, w);
    KeyLineSplit(k, v, w);
  }

  /** A section's key lines before some text: its first line, then the rest. */
  lemma KeyLinesCons(sec: Section, u: string)
    requires sec != []
    ensures KeyLines(sec) + u == KeyLine(sec[0].0, sec[0].1) + (KeyLines(sec[1..]) + u)
  {
    var a, b := KeyLine(sec[0].0, sec[0].1), KeyLines(sec[1..]);
    assert KeyLines(sec) == a + b;
    assert (a + b) + u == a + (b + u);
  }

  lemma {:induction false} ParseKeyLines(sec: Section, u: string, tail: string)
    requires SectionOk(sec) && ParseKeys(u) == Some(([], tail))
    ensures ParseKeys(KeyLines(sec) + u) == Some((sec, tail))
  {
    if sec != [] {
      assert SectionOk(sec[1..]) by {
        forall j | 0 <= j < |sec[1..]| ensures KeyOk(sec[1..][j].0) && ValueOk(sec[1..][j].1) {
          assert sec[1..][j] == sec[j + 1];
        }
      }
      ParseKeyLines(sec[1..], u, tail);
      ParseFirstKeyLine(sec, u, tail);
    } else {
      assert KeyLines(sec) + u == u;
    }
  }

  /** Reading the first key line of a section, given that the rest of its lines read back. */
  lemma ParseFirstKeyLine(sec: Section, u: string, tail: string)
    requires sec != [] && KeyOk(sec[0].0) && ValueOk(sec[0].1)
    requires ParseKeys(KeyLines(sec[1..]) + u) == Some((sec[1..], tail))
    ensures ParseKeys(KeyLines(sec) + u) == Some((sec, tail))
  {
    ParseKeyLine(sec[0].0, sec[0].1, KeyLines(sec[1..]) + u, sec[1..], tail);
    KeyLinesCons(sec, u);
    assert [sec[0]] + sec[1..] == sec;
  }

  lemma ParseHeaderAt(s: string, after: string)
    requires NameOk(s)
    ensures ParseHeaderLine(Header(s) + after) == Some((s, after))
  {
    var t := Header(s) + after;
    assert t == ("[" + s) + [']'] + ("\n" + after);
    UntilAt("[" + s, ']', "\n" + after);
    assert t[|s| + 2] == '\n';
    assert t[|s| + 3..] == after;
    assert t[1..|s| + 1] == s;
  }

  /** What follows a section's key lines: the blank line, if it has keys, and the next header. */
  lemma ParseSectionEnd(sec: Section, tail: string)
    requires tail == [] || tail[0] == '['
    ensures ParseKeys((if sec == [] then "" else "\n") + tail) == Some(([], tail))
  {
    var u := (if sec == [] then "" else "\n") + tail;
    if sec != [] {
      assert u[1..] == tail;
    } else {
      assert u == tail;
    }
  }

  /** A section's text before some text: its header, then its key lines and what follows them. */
  lemma SectionTextSplit(s: string, sec: Section, tail: string)
    ensures SectionText(s, sec) + tail
      == Header(s) + (KeyLines(sec) + ((if sec == [] then "" else "\n") + tail))
  {
    var h, k, e := Header(s), KeyLines(sec), if sec == [] then "" else "\n";
    assert SectionText(s, sec) == h + k + e;
    assert h + k + e + tail == h + (k + (e + tail));
  }

  lemma ParseSection(s: string, sec: Section, tail: string, d: Document)
    requires NameOk(s) && SectionOk(sec) && (tail == [] || tail[0] == '[') && ParseDoc(tail) == Some(d)
    ensures ParseDoc(SectionText(s, sec) + tail) == Some([(s, sec)] + d)
  {
    var u := (if sec == [] then "" else "\n") + tail;
    ParseSectionEnd(sec, tail);
    ParseKeyLines(sec, u, tail);
    ParseHeaderAt(s, KeyLines(sec) + u);
    SectionTextSplit(s, sec, tail);
  }

  /** Reading back what createContentFromBody writes gives the body it was given. */
  lemma {:induction false} ParseSerialize(d: Document)
    requires Writable(d)
    ensures ParseDoc(Serialize(d)) == Some(d)
  {
    if d != [] {
      assert Writable(d[1..]) by {
        forall i | 0 <= i < |d[1..]| ensures NameOk(d[1..][i].0) && SectionOk(d[1..][i].1) {
          assert d[1..][i] == d[i + 1];
        }
      }
      ParseSerialize(d[1..]);
      SerializeStart(d[1..]);
      ParseSection(d[0].0, d[0].1, Serialize(d[1..]), d[1..]);
      assert [d[0]] + d[1..] == d;
    }
  }

  /** Hence two writable bodies that produce the same text are the same body. */
  lemma SerializeInjective(d: Document, e: Document)
    requires Writable(d) && Writable(e) && Serialize(d) == Serialize(e)
    ensures d == e
  {
    ParseSerialize(d);
    ParseSerialize(e);
  }
}
