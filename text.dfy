/**
 * String operations that drawtable.js takes from JavaScript's String:
 * `length` (counted in UTF-16 code units), `trim()`, and `split('\n')`
 * together with its inverse, joining lines with '\n'.
 */
module Text {

  /** Number of UTF-16 code units JavaScript's `length` reports for `s`. */
  function Utf16Length(s: string): (n: nat)
    ensures |s| <= n <= 2 * |s|
    ensures (forall k :: 0 <= k < |s| ==> s[k] as int <= 0xFFFF) ==> n == |s|
  {
    if s == [] then 0
    else (if s[0] as int > 0xFFFF then 2 else 1) + Utf16Length(s[1..])
  }

  /** A character above U+FFFF is a surrogate pair, two code units; any other is one. */
  lemma Utf16Char(c: char)
    ensures Utf16Length([c]) == if c as int > 0xFFFF then 2 else 1
  {
    assert [c][1..] == [];
  }

  /** The length of a concatenation is the sum of the lengths. */
  lemma {:induction false} Utf16Append(a: string, b: string)
    ensures Utf16Length(a + b) == Utf16Length(a) + Utf16Length(b)
  {
    if a == [] {
      assert a + b == b;
    } else {
      assert (a + b)[0] == a[0] && (a + b)[1..] == a[1..] + b;
      Utf16Append(a[1..], b);
    }
  }

  /** ECMAScript WhiteSpace and LineTerminator code points, the set `trim()` removes. */
  predicate IsJsWhitespace(c: char)
  {
    || c == '\U{0009}' || c == '\U{000B}' || c == '\U{000C}' || c == '\U{0020}'
    || c == '\U{00A0}' || c == '\U{FEFF}' || c == '\U{1680}'
    || ('\U{2000}' <= c <= '\U{200A}') || c == '\U{202F}' || c == '\U{205F}' || c == '\U{3000}'
    || c == '\U{000A}' || c == '\U{000D}' || c == '\U{2028}' || c == '\U{2029}'
  }

  /** Every character of `s` at an index in [lo, hi) is whitespace. */
  predicate BlankBetween(s: string, lo: nat, hi: nat)
    requires lo <= hi <= |s|
  {
    forall k :: lo <= k < hi ==> IsJsWhitespace(s[k])
  }

  /** `s` with its leading whitespace removed: a suffix of `s`. */
  function TrimStart(s: string): (r: string)
    ensures |r| <= |s| && r == s[|s| - |r|..]
    ensures BlankBetween(s, 0, |s| - |r|)
    ensures r == [] || !IsJsWhitespace(r[0])
  {
    if s != [] && IsJsWhitespace(s[0]) then TrimStart(s[1..]) else s
  }

  /** `s` with its trailing whitespace removed: a prefix of `s`. */
  function TrimEnd(s: string): (r: string)
    ensures |r| <= |s| && r == s[..|r|]
    ensures BlankBetween(s, |r|, |s|)
    ensures r == [] || !IsJsWhitespace(r[|r| - 1])
  {
    if s != [] && IsJsWhitespace(s[|s| - 1]) then TrimEnd(s[..|s| - 1]) else s
  }

  /** JavaScript's `String.prototype.trim`. */
  function Trim(s: string): (r: string)
    ensures |r| <= |s|
    ensures r == [] <==> BlankBetween(s, 0, |s|)
    ensures r != [] ==> !IsJsWhitespace(r[0]) && !IsJsWhitespace(r[|r| - 1])
  {
    TrimEmptyIffBlank(s);
    TrimEnd(TrimStart(s))
  }

  lemma TrimEmptyIffBlank(s: string)
    ensures TrimEnd(TrimStart(s)) == [] <==> BlankBetween(s, 0, |s|)
    ensures TrimEnd(TrimStart(s)) != [] ==> TrimEnd(TrimStart(s))[0] == TrimStart(s)[0]
  {
  }

  /** Trimming the start of `s` drops exactly a whitespace prefix followed by a non-whitespace character or the end. */
  lemma TrimStartDrops(s: string, a: nat)
    requires a <= |s| && BlankBetween(s, 0, a)
    requires a < |s| ==> !IsJsWhitespace(s[a])
    ensures TrimStart(s) == s[a..]
  {
  }

  /** Trimming the end of `t` drops exactly a whitespace suffix following a non-whitespace character or the start. */
  lemma TrimEndDrops(t: string, c: nat)
    requires c <= |t| && BlankBetween(t, c, |t|)
    requires 0 < c ==> !IsJsWhitespace(t[c - 1])
    ensures TrimEnd(t) == t[..c]
  {
  }

  /**
   * Trimming leaves exactly the part between a whitespace prefix and a
   * whitespace suffix, when that part neither starts nor ends with whitespace.
   */
  lemma TrimIsCore(s: string, a: nat, b: nat)
    requires a <= b <= |s|
    requires BlankBetween(s, 0, a) && BlankBetween(s, b, |s|)
    requires a < b ==> !IsJsWhitespace(s[a]) && !IsJsWhitespace(s[b - 1])
    ensures Trim(s) == s[a..b]
  {
    if a < b {
      TrimStartDrops(s, a);
      TrimEndOfSuffix(s, a, b);
    } else {
      assert BlankBetween(s, 0, |s|);
    }
  }

  lemma TrimEndOfSuffix(s: string, a: nat, b: nat)
    requires a < b <= |s|
    requires BlankBetween(s, b, |s|) && !IsJsWhitespace(s[b - 1])
    ensures TrimEnd(s[a..]) == s[a..b]
  {
    var t := s[a..];
    assert t[b - a - 1] == s[b - 1];
    assert BlankBetween(t, b - a, |t|) by {
      forall k | b - a <= k < |t| ensures IsJsWhitespace(t[k]) {
        assert t[k] == s[k + a];
      }
    }
    TrimEndDrops(t, b - a);
    assert t[..b - a] == s[a..b];
  }

  /** Number of '\n' characters in `s`. */
  function NewlineCount(s: string): nat
  {
    if s == [] then 0 else (if s[0] == '\n' then 1 else 0) + NewlineCount(s[1..])
  }

  /** JavaScript's `s.split('\n')`: the maximal '\n'-free pieces between the separators. */
  function Split(s: string): (lines: seq<string>)
    ensures |lines| == NewlineCount(s) + 1
    ensures forall i :: 0 <= i < |lines| ==> '\n' !in lines[i]
  {
    if s == [] then [[]]
    else
      var rest := Split(s[1..]);
      if s[0] == '\n' then [[]] + rest
      else [[s[0]] + rest[0]] + rest[1..]
  }

  /** `lines.join('\n')`. */
  function Join(lines: seq<string>): string
    requires |lines| >= 1
  {
    if |lines| == 1 then lines[0] else lines[0] + "\n" + Join(lines[1..])
  }

  /** Joining the pieces of a split with '\n' gives back the original text. */
  lemma {:induction false} JoinSplit(s: string)
    ensures Join(Split(s)) == s
  {
    if s != [] {
      var rest := Split(s[1..]);
      JoinSplit(s[1..]);
      if s[0] == '\n' {
        assert Split(s)[1..] == rest;
      } else if |rest| == 1 {
        assert Split(s) == [[s[0]] + rest[0]];
      } else {
        var lines := Split(s);
        assert lines[1..] == rest[1..];
        calc {
          Join(lines);
          lines[0] + "\n" + Join(rest[1..]);
          [s[0]] + (rest[0] + "\n" + Join(rest[1..]));
          [s[0]] + Join(rest);
          [s[0]] + s[1..];
        }
      }
    }
  }

  /** Splitting lines that hold no '\n' after joining them gives back the same lines. */
  lemma {:induction false} SplitJoin(lines: seq<string>)
    requires |lines| >= 1
    requires forall i :: 0 <= i < |lines| ==> '\n' !in lines[i]
    ensures Split(Join(lines)) == lines
  {
    if |lines| == 1 {
      assert '\n' !in lines[0];
      SplitLine(lines[0], []);
      assert lines[0] + [] == lines[0] && Split([]) == [[]];
      assert [lines[0]] == lines;
    } else {
      var tail := Join(lines[1..]);
      assert forall i :: 0 <= i < |lines| - 1 ==> lines[1..][i] == lines[i + 1];
      SplitJoin(lines[1..]);
      assert '\n' !in lines[0];
      SplitLine(lines[0], "\n" + tail);
      assert ("\n" + tail)[1..] == tail && ("\n" + tail)[0] == '\n';
      assert Split("\n" + tail) == [[]] + lines[1..];
      assert lines[0] + "\n" + tail == lines[0] + ("\n" + tail);
      assert lines[0] + [] == lines[0];
      assert [lines[0]] + lines[1..] == lines;
    }
  }

  /** A '\n'-free prefix is glued onto the first piece of what follows it. */
  lemma {:induction false} SplitLine(a: string, t: string)
    requires '\n' !in a
    ensures Split(a + t) == [a + Split(t)[0]] + Split(t)[1..]
  {
    if a != [] {
      var at := a + t;
      assert at[1..] == a[1..] + t;
      assert at[0] == a[0] && a[0] in a;
      assert '\n' !in a[1..] by {
        assert forall c :: c in a[1..] ==> c in a;
      }
      SplitLine(a[1..], t);
      var rest := Split(at[1..]);
      assert rest == [a[1..] + Split(t)[0]] + Split(t)[1..];
      assert Split(at) == [[a[0]] + rest[0]] + rest[1..];
      assert [a[0]] + (a[1..] + Split(t)[0]) == a + Split(t)[0];
    } else {
      assert a + t == t && a + Split(t)[0] == Split(t)[0];
    }
  }
}
