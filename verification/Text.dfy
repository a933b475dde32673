/** The text functions the interfaces code is built on: splitting into lines, joining, trimming,
    and splitting a line into fields. */
module Text {
  predicate IsSpace(c: char) {
    || '\t' <= c <= '\r'
    || c == ' '
    || c == '\U{0085}' || c == '\U{00A0}' || c == '\U{1680}'
    || '\U{2000}' <= c <= '\U{200A}'
    || c == '\U{2028}' || c == '\U{2029}' || c == '\U{202F}' || c == '\U{205F}' || c == '\U{3000}'
  }

  predicate SpaceFree(s: string) {
    forall i | 0 <= i < |s| :: !IsSpace(s[i])
  }

  /** A non-empty run of characters without whitespace. */
  predicate IsWord(s: string) {
    s != "" && SpaceFree(s)
  }

  // ------------------------------------------------------------------- lines

  function Lines(s: string): (r: seq<string>)
    ensures r != []
  {
    if s == "" then [""]
    else
      var rest := Lines(s[1..]);
      if s[0] == '\n' then [""] + rest else [[s[0]] + rest[0]] + rest[1..]
  }

  function Join(parts: seq<string>, sep: string): string {
    if parts == [] then ""
    else if |parts| == 1 then parts[0]
    else parts[0] + sep + Join(parts[1..], sep)
  }

  predicate IsLine(s: string) {
    '\n' !in s
  }

  lemma {:induction false} LinesAreLines(s: string)
    ensures forall l | l in Lines(s) :: IsLine(l)
  {
    if s != "" {
      LinesAreLines(s[1..]);
      var rest := Lines(s[1..]);
      assert rest[0] in rest && forall l | l in rest[1..] :: l in rest;
    }
  }

  lemma {:induction false} LinesConcat(a: string, b: string)
    ensures Lines(a + "\n" + b) == Lines(a) + Lines(b)
  {
    var s := a + "\n" + b;
    if a == "" {
      assert s[1..] == b;
    } else {
      assert s[1..] == a[1..] + "\n" + b;
      LinesConcat(a[1..], b);
    }
  }

  lemma {:induction false} LinesOfLine(l: string)
    requires IsLine(l)
    ensures Lines(l) == [l]
  {
    if l != "" {
      assert IsLine(l[1..]);
      LinesOfLine(l[1..]);
      assert [l[0]] + l[1..] == l;
    }
  }

  /** Splitting undoes joining; the last part may itself hold several lines. */
  lemma {:induction false} LinesOfJoin(ls: seq<string>, last: string)
    requires forall l | l in ls :: IsLine(l)
    ensures Lines(Join(ls + [last], "\n")) == ls + Lines(last)
  {
    if ls == [] {
      assert ls + [last] == [last];
    } else {
      assert (ls + [last])[1..] == ls[1..] + [last];
      LinesOfJoin(ls[1..], last);
      LinesConcat(ls[0], Join(ls[1..] + [last], "\n"));
      LinesOfLine(ls[0]);
    }
  }

  lemma {:induction false} JoinSnoc(parts: seq<string>, last: string, sep: string)
    requires parts != []
    ensures Join(parts + [last], sep) == Join(parts, sep) + sep + last
  {
    assert (parts + [last])[1..] == parts[1..] + [last];
    if |parts| > 1 {
      JoinSnoc(parts[1..], last, sep);
    }
  }

  // ---------------------------------------------------------------- trimming

  function TrimLeft(s: string): string {
    if s != "" && IsSpace(s[0]) then TrimLeft(s[1..]) else s
  }

  function TrimRight(s: string): string {
    if s != "" && IsSpace(s[|s| - 1]) then TrimRight(s[..|s| - 1]) else s
  }

  function TrimSpace(s: string): string {
    TrimRight(TrimLeft(s))
  }

  lemma {:induction false} TrimRightKeepsHead(s: string)
    requires s != "" && !IsSpace(s[0])
    ensures TrimRight(s) != "" && TrimRight(s)[0] == s[0]
  {
    if IsSpace(s[|s| - 1]) {
      TrimRightKeepsHead(s[..|s| - 1]);
    }
  }

  // ------------------------------------------------------------------ fields

  function WordLen(s: string): (n: nat)
    ensures n <= |s|
  {
    if s == "" || IsSpace(s[0]) then 0 else 1 + WordLen(s[1..])
  }

  function Fields(s: string): seq<string>
    decreases |s|
  {
    if s == "" then []
    else if IsSpace(s[0]) then Fields(s[1..])
    else
      var n := WordLen(s);
      [s[..n]] + Fields(s[n..])
  }

  lemma {:induction false} WordLenOfWord(w: string, rest: string)
    requires SpaceFree(w)
    requires rest == "" || IsSpace(rest[0])
    ensures WordLen(w + rest) == |w|
  {
    if w == "" {
      assert w + rest == rest;
    } else {
      assert (w + rest)[1..] == w[1..] + rest;
      WordLenOfWord(w[1..], rest);
    }
  }

  lemma {:induction false} FieldsOfWord(w: string)
    requires IsWord(w)
    ensures Fields(w) == [w]
  {
    WordLenOfWord(w, "");
    assert w + "" == w;
  }

  lemma {:induction false} FieldsOfWordThen(w: string, rest: string)
    requires IsWord(w)
    ensures Fields(w + " " + rest) == [w] + Fields(rest)
  {
    var s := w + " " + rest;
    WordLenOfWord(w, " " + rest);
    assert s == w + (" " + rest);
    assert s[|w|..] == " " + rest;
    assert (" " + rest)[1..] == rest;
  }

  lemma {:induction false} FieldsOfFour(a: string, b: string, c: string, d: string)
    requires IsWord(a) && IsWord(b) && IsWord(c) && IsWord(d)
    ensures Fields(a + " " + (b + " " + (c + " " + d))) == [a, b, c, d]
  {
    FieldsOfWord(d);
    FieldsOfWordThen(c, d);
    FieldsOfWordThen(b, c + " " + d);
    FieldsOfWordThen(a, b + " " + (c + " " + d));
  }

  function NonEmpty(parts: seq<string>): seq<string> {
    if parts == [] then []
    else (if parts[0] == "" then [] else [parts[0]]) + NonEmpty(parts[1..])
  }

  lemma {:induction false} FieldsOfJoin(parts: seq<string>)
    requires forall p | p in parts :: SpaceFree(p)
    ensures Fields(Join(parts, " ")) == NonEmpty(parts)
  {
    if |parts| == 1 {
      if parts[0] != "" { FieldsOfWord(parts[0]); }
      assert NonEmpty(parts[1..]) == [];
    } else if |parts| > 1 {
      var rest := Join(parts[1..], " ");
      FieldsOfJoin(parts[1..]);
      if parts[0] == "" {
        assert Join(parts, " ") == " " + rest;
        assert (" " + rest)[1..] == rest;
      } else {
        FieldsOfWordThen(parts[0], rest);
      }
    }
  }

  lemma {:induction false} WordLenTrailing(s: string, c: char)
    requires IsSpace(c)
    ensures WordLen(s + [c]) == WordLen(s)
  {
    if s != "" && !IsSpace(s[0]) {
      assert (s + [c])[1..] == s[1..] + [c];
      WordLenTrailing(s[1..], c);
    }
  }

  lemma {:induction false} FieldsTrailing(s: string, c: char)
    requires IsSpace(c)
    ensures Fields(s + [c]) == Fields(s)
    decreases |s|
  {
    if s == "" {
      assert (s + [c])[1..] == "";
    } else if IsSpace(s[0]) {
      assert (s + [c])[1..] == s[1..] + [c];
      FieldsTrailing(s[1..], c);
    } else {
      var n := WordLen(s);
      WordLenTrailing(s, c);
      assert (s + [c])[..n] == s[..n] && (s + [c])[n..] == s[n..] + [c];
      FieldsTrailing(s[n..], c);
    }
  }

  lemma {:induction false} FieldsTrimRight(s: string)
    ensures Fields(TrimRight(s)) == Fields(s)
  {
    if s != "" && IsSpace(s[|s| - 1]) {
      FieldsTrimRight(s[..|s| - 1]);
      FieldsTrailing(s[..|s| - 1], s[|s| - 1]);
      assert s == s[..|s| - 1] + [s[|s| - 1]];
    }
  }

  lemma {:induction false} FieldsTrimLeft(s: string)
    ensures Fields(TrimLeft(s)) == Fields(s)
  {
    if s != "" && IsSpace(s[0]) {
      FieldsTrimLeft(s[1..]);
    }
  }

  /** Trimming does not change the fields of a line. */
  lemma {:induction false} FieldsTrim(s: string)
    ensures Fields(TrimSpace(s)) == Fields(s)
  {
    FieldsTrimLeft(s);
    FieldsTrimRight(TrimLeft(s));
  }

  // ------------------------------------------------- what the functions come to

  /** The whitespace characters: those of Unicode's White_Space property, by code point. */
  lemma {:induction false} SpaceCodes(c: char)
    ensures IsSpace(c) <==> c as int in {9, 10, 11, 12, 13, 32, 0x85, 0xA0, 0x1680, 0x2000, 0x2001, 0x2002, 0x2003, 0x2004,
                                         0x2005, 0x2006, 0x2007, 0x2008, 0x2009, 0x200A, 0x2028, 0x2029, 0x202F, 0x205F, 0x3000}
  {
  }

  /** Joining undoes splitting. */
  lemma {:induction false} JoinOfLines(s: string)
    ensures Join(Lines(s), "\n") == s
  {
    if s != "" {
      var rest := Lines(s[1..]);
      JoinOfLines(s[1..]);
      if s[0] == '\n' {
        assert ([""] + rest)[1..] == rest;
        assert "" + "\n" + s[1..] == s;
      } else {
        var first := [s[0]] + rest[0];
        assert ([first] + rest[1..])[1..] == rest[1..];
        if |rest| > 1 {
          assert first + "\n" + Join(rest[1..], "\n") == [s[0]] + (rest[0] + "\n" + Join(rest[1..], "\n"));
        }
        assert [s[0]] + s[1..] == s;
      }
    }
  }

  /** Any whitespace character separates fields, and nothing else does: see also FieldsOfWord. */
  lemma {:induction false} FieldsAtSpace(a: string, c: char, b: string)
    requires IsSpace(c)
    ensures Fields(a + [c] + b) == Fields(a) + Fields(b)
    decreases |a|
  {
    var s := a + [c] + b;
    if a == "" {
      assert s[1..] == b;
    } else if IsSpace(a[0]) {
      assert s[1..] == a[1..] + [c] + b;
      FieldsAtSpace(a[1..], c, b);
    } else {
      var n := WordLen(a);
      WordLenStops(a, [c] + b);
      assert s == a + ([c] + b);
      assert s[..n] == a[..n] && s[n..] == a[n..] + [c] + b;
      FieldsAtSpace(a[n..], c, b);
      assert Fields(s) == [a[..n]] + (Fields(a[n..]) + Fields(b));
      assert Fields(a) == [a[..n]] + Fields(a[n..]);
    }
  }

  lemma {:induction false} WordLenStops(a: string, rest: string)
    requires rest != "" && IsSpace(rest[0])
    ensures WordLen(a + rest) == WordLen(a)
  {
    if a == "" {
      assert a + rest == rest;
    } else if !IsSpace(a[0]) {
      assert (a + rest)[1..] == a[1..] + rest;
      WordLenStops(a[1..], rest);
    }
  }

  predicate AllSpace(s: string) {
    forall i | 0 <= i < |s| :: IsSpace(s[i])
  }

  /** Trimming takes whitespace off both ends, and all of it. */
  lemma {:induction false} TrimSpaceMeans(s: string) returns (a: string, b: string)
    ensures AllSpace(a) && AllSpace(b) && s == a + TrimSpace(s) + b
    ensures var t := TrimSpace(s);
            t != "" ==> !IsSpace(t[0]) && !IsSpace(t[|t| - 1])
  {
    a := TrimLeftMeans(s);
    var t := TrimLeft(s);
    b := TrimRightMeans(t);
    assert s == a + (TrimRight(t) + b) == a + TrimRight(t) + b;
  }

  lemma {:induction false} TrimLeftMeans(s: string) returns (a: string)
    ensures AllSpace(a) && s == a + TrimLeft(s)
    ensures TrimLeft(s) != "" ==> !IsSpace(TrimLeft(s)[0])
  {
    a := "";
    if s != "" && IsSpace(s[0]) {
      a := TrimLeftMeans(s[1..]);
      a := [s[0]] + a;
    }
  }

  lemma {:induction false} TrimRightMeans(s: string) returns (b: string)
    ensures AllSpace(b) && s == TrimRight(s) + b
    ensures TrimRight(s) != "" ==> !IsSpace(TrimRight(s)[|TrimRight(s)| - 1]) && TrimRight(s)[0] == s[0]
  {
    b := "";
    if s != "" && IsSpace(s[|s| - 1]) {
      b := TrimRightMeans(s[..|s| - 1]);
      b := b + [s[|s| - 1]];
    }
  }
}
