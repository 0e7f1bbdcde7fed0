/**
 * The pieces of Python's string and text-file behaviour that the book store
 * relies on: `str.isspace`/`str.strip`, `str.split` on one separator,
 * `str.join`, ASCII `str.lower`, the substring test `q in s`, and how a file
 * opened in text mode is read back line by line.
 */
module Text {

  /** Python's `str.isspace()` on one character: the characters `strip()` removes. */
  predicate IsSpace(c: char): (r: bool)
    ensures ('\t' <= c <= '\r' || c == ' ') ==> r
    ensures r ==> c != ',' && !('0' <= c <= '9') && !('A' <= c <= 'Z') && !('a' <= c <= 'z')
  {
    || ('\t' <= c <= '\r')
    || ('\U{1C}' <= c <= ' ')
    || c == '\U{85}' || c == '\U{A0}' || c == '\U{1680}'
    || ('\U{2000}' <= c <= '\U{200A}')
    || c == '\U{2028}' || c == '\U{2029}' || c == '\U{202F}' || c == '\U{205F}' || c == '\U{3000}'
  }

  /** Removes leading whitespace: what is left is a suffix of `s` that does not start with whitespace. */
  function StripLeft(s: string): (r: string)
    ensures |r| <= |s| && r == s[|s| - |r|..]
    ensures forall k :: 0 <= k < |s| - |r| ==> IsSpace(s[k])
    ensures r != [] ==> !IsSpace(r[0])
  {
    if |s| > 0 && IsSpace(s[0]) then StripLeft(s[1..]) else s
  }

  /** Removes trailing whitespace: what is left is a prefix of `s` that does not end with whitespace. */
  function StripRight(s: string): (r: string)
    ensures |r| <= |s| && r == s[..|r|]
    ensures forall k :: |r| <= k < |s| ==> IsSpace(s[k])
    ensures r != [] ==> !IsSpace(r[|r| - 1])
  {
    if |s| > 0 && IsSpace(s[|s| - 1]) then StripRight(s[..|s| - 1]) else s
  }

  /**
   * Python's `s.strip()`: no longer than `s`, neither end is whitespace, and it
   * is empty exactly when `s` is all whitespace.
   */
  function Strip(s: string): (r: string)
    ensures |r| <= |s|
    ensures r != [] ==> !IsSpace(r[0]) && !IsSpace(r[|r| - 1])
    ensures r == [] <==> forall k :: 0 <= k < |s| ==> IsSpace(s[k])
  {
    var l := StripLeft(s);
    assert forall k :: |s| - |l| <= k < |s| ==> s[k] == l[k - (|s| - |l|)];
    StripRight(l)
  }

  /** Stripping a line that ends in a newline gives back the line when its ends are not whitespace. */
  lemma StripNewline(s: string)
    requires s != [] && !IsSpace(s[0]) && !IsSpace(s[|s| - 1])
    ensures Strip(s + "\n") == s
  {
    assert StripLeft(s + "\n") == s + "\n";
    assert (s + "\n")[..|s|] == s;
  }

  /** The position of the first `c` in `s`, or `|s|` when there is none. */
  function FirstIndex(s: string, c: char): (k: nat)
    ensures k <= |s|
    ensures k < |s| ==> s[k] == c
    ensures forall j :: 0 <= j < k ==> s[j] != c
  {
    if |s| == 0 || s[0] == c then 0 else 1 + FirstIndex(s[1..], c)
  }

  /** Python's `s.split(sep)`: every separator cuts, and empty pieces are kept. */
  function Split(s: string, sep: char): (fields: seq<string>)
    ensures |fields| >= 1
    ensures |fields| <= |s| + 1
    decreases |s|
  {
    var k := FirstIndex(s, sep);
    if k == |s| then [s] else [s[..k]] + Split(s[k + 1..], sep)
  }

  /**
   * Python's `sep.join(fields)`: no pieces give the empty string, and with two
   * or more the first piece is followed by the separator.
   */
  function Join(fields: seq<string>, sep: char): (r: string)
    ensures fields == [] ==> r == []
    ensures |fields| >= 2 ==> |r| > |fields[0]| && r[..|fields[0]|] == fields[0] && r[|fields[0]|] == sep
  {
    if |fields| == 0 then ""
    else if |fields| == 1 then fields[0]
    else fields[0] + [sep] + Join(fields[1..], sep)
  }

  /** No piece of `fields` holds the character `c`. */
  predicate NoneContains(fields: seq<string>, c: char) {
    forall i :: 0 <= i < |fields| ==> c !in fields[i]
  }

  /** Splitting never yields a piece that holds the separator, and joining the pieces gives `s` back. */
  lemma {:induction false} JoinSplit(s: string, sep: char)
    ensures NoneContains(Split(s, sep), sep)
    ensures Join(Split(s, sep), sep) == s
    decreases |s|
  {
    var k := FirstIndex(s, sep);
    if k < |s| {
      JoinSplit(s[k + 1..], sep);
      assert s == s[..k] + [sep] + s[k + 1..];
    } else {
      assert Split(s, sep) == [s];
    }
  }

  /** Splitting a join gives the pieces back, provided no piece holds the separator. */
  lemma {:induction false} SplitJoin(fields: seq<string>, sep: char)
    requires |fields| >= 1
    requires NoneContains(fields, sep)
    ensures Split(Join(fields, sep), sep) == fields
  {
    if |fields| > 1 {
      var rest := Join(fields[1..], sep);
      var s := fields[0] + [sep] + rest;
      assert FirstIndex(s, sep) == |fields[0]| by {
        assert s[|fields[0]|] == sep;
        assert sep !in fields[0];
      }
      assert s[..|fields[0]|] == fields[0];
      assert s[|fields[0]| + 1..] == rest;
      SplitJoin(fields[1..], sep);
    }
  }

  /** A join of at least two pieces ends with the separator followed by the last piece. */
  lemma {:induction false} JoinLast(fields: seq<string>, sep: char)
    requires |fields| >= 2
    ensures Join(fields, sep) == Join(fields[..|fields| - 1], sep) + [sep] + fields[|fields| - 1]
  {
    if |fields| > 2 {
      JoinLast(fields[1..], sep);
      assert fields[1..][..|fields| - 2] == fields[..|fields| - 1][1..];
    }
  }

  /** Python's `str.lower()` on one character, for the ASCII letters. */
  function LowerChar(c: char): char {
    if 'A' <= c <= 'Z' then (c as int + 32) as char else c
  }

  /** Python's `s.lower()`, for the ASCII letters: same length, no capital letter left. */
  function Lower(s: string): (r: string)
    ensures |r| == |s|
    ensures forall i :: 0 <= i < |r| ==> !('A' <= r[i] <= 'Z')
  {
    seq(|s|, i requires 0 <= i < |s| => LowerChar(s[i]))
  }

  /** Lowering an already lowered string changes nothing. */
  lemma LowerIdempotent(s: string)
    ensures Lower(Lower(s)) == Lower(s)
  {
  }

  /** `q` occurs in `s` starting at position `k`. */
  ghost predicate OccursAt(s: string, q: string, k: int) {
    0 <= k && k + |q| <= |s| && s[k..k + |q|] == q
  }

  /** Python's `q in s` on two strings: the empty string is in every string, and `q` is never longer than `s`. */
  predicate Contains(s: string, q: string): (r: bool)
    ensures q == [] ==> r
    ensures r ==> |q| <= |s|
    decreases |s|
  {
    q <= s || (|s| > 0 && Contains(s[1..], q))
  }

  /** `q in s` holds exactly when `q` occurs in `s` at some position. */
  lemma {:induction false} ContainsIff(s: string, q: string)
    ensures Contains(s, q) <==> exists k :: OccursAt(s, q, k)
    decreases |s|
  {
    if q <= s {
      assert OccursAt(s, q, 0);
    } else if |s| > 0 {
      ContainsIff(s[1..], q);
      forall k | OccursAt(s[1..], q, k)
        ensures OccursAt(s, q, k + 1)
      {
        assert s[1..][k..k + |q|] == s[k + 1..k + 1 + |q|];
      }
      forall k | OccursAt(s, q, k)
        ensures k >= 1 && OccursAt(s[1..], q, k - 1)
      {
        assert k != 0 by {
          assert s[0..|q|] == s[..|q|];
        }
        assert s[1..][k - 1..k - 1 + |q|] == s[k..k + |q|];
      }
    }
  }

  /**
   * Reading a file in text mode with universal newlines: `"\r\n"` and a lone
   * `"\r"` both arrive as `"\n"`.
   */
  function ReadNewlines(raw: string): (t: string)
    ensures '\r' !in t
    decreases |raw|
  {
    if raw == [] then []
    else if raw[0] == '\r' then
      "\n" + ReadNewlines(if |raw| > 1 && raw[1] == '\n' then raw[2..] else raw[1..])
    else [raw[0]] + ReadNewlines(raw[1..])
  }

  /** Text without a carriage return reads back unchanged. */
  lemma {:induction false} ReadNewlinesNoCR(raw: string)
    requires '\r' !in raw
    ensures ReadNewlines(raw) == raw
    decreases |raw|
  {
    if raw != [] {
      assert '\r' !in raw[1..];
      ReadNewlinesNoCR(raw[1..]);
      assert raw == [raw[0]] + raw[1..];
    }
  }

  /**
   * Iterating over a text file: pieces that each run up to and including a
   * `'\n'`, and a last piece without one when the text does not end in `'\n'`.
   */
  function Lines(t: string): (lines: seq<string>)
    ensures forall i :: 0 <= i < |lines| ==> lines[i] != []
    decreases |t|
  {
    if t == [] then []
    else
      var k := FirstIndex(t, '\n');
      if k == |t| then [t] else [t[..k + 1]] + Lines(t[k + 1..])
  }

  /** A piece without a newline, followed by a newline, is read as one line. */
  lemma LinesCons(s: string, rest: string)
    requires '\n' !in s
    ensures Lines(s + "\n" + rest) == [s + "\n"] + Lines(rest)
  {
    var t := s + "\n" + rest;
    assert t[|s|] == '\n';
    assert FirstIndex(t, '\n') == |s|;
    assert t[..|s| + 1] == s + "\n";
    assert t[|s| + 1..] == rest;
  }

  /** The lines of a file laid end to end. */
  function Concat(lines: seq<string>): string {
    if lines == [] then [] else lines[0] + Concat(lines[1..])
  }

  /**
   * The lines cover the text exactly: laid end to end they give it back, no
   * line holds a newline before its last character, and every line but the
   * last ends in a newline.
   */
  lemma {:induction false} LinesConcat(t: string)
    ensures Concat(Lines(t)) == t
    ensures forall i :: 0 <= i < |Lines(t)| ==> '\n' !in Lines(t)[i][..|Lines(t)[i]| - 1]
    ensures forall i :: 0 <= i < |Lines(t)| - 1 ==> Lines(t)[i][|Lines(t)[i]| - 1] == '\n'
    decreases |t|
  {
    if t != [] {
      var k := FirstIndex(t, '\n');
      if k < |t| {
        LinesConcat(t[k + 1..]);
        assert t == t[..k + 1] + t[k + 1..];
        assert t[..k + 1][..k] == t[..k];
      } else {
        assert Lines(t) == [t];
      }
    }
  }
}
