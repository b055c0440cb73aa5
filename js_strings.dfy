/**
 * The JavaScript string built-ins the playlist scanner relies on:
 * `String.prototype.trim`, `String.prototype.split` with a one-character
 * separator, and `String.prototype.startsWith`.
 */
module JsStrings {

  /**
   * The characters `trim` removes: the WhiteSpace and LineTerminator
   * productions of ECMAScript, that is TAB, VT, FF, SP, NBSP, ZWNBSP,
   * the other Unicode "Zs" space separators, LF, CR, LS and PS.
   */
  predicate IsJsWhitespace(c: char)
  {
    c == '\t' || c == '\n' || c == '\U{000B}' || c == '\U{000C}' || c == '\r' || c == ' '
    || c == '\U{00A0}' || c == '\U{1680}' || ('\U{2000}' <= c <= '\U{200A}')
    || c == '\U{2028}' || c == '\U{2029}' || c == '\U{202F}' || c == '\U{205F}'
    || c == '\U{3000}' || c == '\U{FEFF}'
  }

  /** `s` has no whitespace at either end. */
  predicate IsTrimmed(s: string)
  {
    s == [] || (!IsJsWhitespace(s[0]) && !IsJsWhitespace(s[|s| - 1]))
  }

  /** `s` with its leading whitespace removed: a suffix of `s`. */
  function TrimStart(s: string): (r: string)
    ensures |r| <= |s| && r == s[|s| - |r|..]
    ensures forall i :: 0 <= i < |s| - |r| ==> IsJsWhitespace(s[i])
    ensures r == [] || !IsJsWhitespace(r[0])
  {
    if |s| > 0 && IsJsWhitespace(s[0]) then TrimStart(s[1..]) else s
  }

  /** `s` with its trailing whitespace removed: a prefix of `s`. */
  function TrimEnd(s: string): (r: string)
    ensures |r| <= |s| && r == s[..|r|]
    ensures forall i :: |r| <= i < |s| ==> IsJsWhitespace(s[i])
    ensures r == [] || !IsJsWhitespace(r[|r| - 1])
  {
    if |s| > 0 && IsJsWhitespace(s[|s| - 1]) then TrimEnd(s[..|s| - 1]) else s
  }

  /** `r` is `s[a..a + |r|]` and everything of `s` outside that slice is whitespace. */
  predicate IsWhitespaceCut(s: string, a: int, r: string)
  {
    0 <= a <= |s| - |r| && r == s[a..a + |r|]
    && (forall i :: 0 <= i < a ==> IsJsWhitespace(s[i]))
    && (forall i :: a + |r| <= i < |s| ==> IsJsWhitespace(s[i]))
  }

  /**
   * `s.trim()`: a middle slice of `s`, where everything cut off on either
   * side is whitespace and what is left has no whitespace at its ends.
   */
  function Trim(s: string): (r: string)
    ensures IsTrimmed(r)
    ensures exists a :: IsWhitespaceCut(s, a, r)
  {
    var t := TrimStart(s);
    var r := TrimEnd(t);
    assert IsTrimmed(r) by {
      if r != [] {
        assert r[0] == t[0];
      }
    }
    assert IsWhitespaceCut(s, |s| - |t|, r);
    r
  }

  /** Trimming a string without whitespace at its ends leaves it unchanged. */
  lemma TrimOfTrimmed(s: string)
    requires IsTrimmed(s)
    ensures Trim(s) == s
  {
  }

  /** `s.trim()` is empty exactly when `s` is made of whitespace only. */
  lemma TrimEmptyIffAllWhitespace(s: string)
    ensures Trim(s) == [] <==> forall i :: 0 <= i < |s| ==> IsJsWhitespace(s[i])
  {
    var r := Trim(s);
    var a :| IsWhitespaceCut(s, a, r);
    if r != [] {
      assert s[a] == r[0];
    }
  }

  /** `s.startsWith(prefix)`. */
  predicate StartsWith(s: string, prefix: string)
  {
    |prefix| <= |s| && s[..|prefix|] == prefix
  }

  /**
   * `s.split(sep)` for a one-character separator: the pieces between
   * separators, so a string with n separators gives n + 1 pieces and the
   * empty string gives one empty piece.
   */
  function Split(s: string, sep: char): (parts: seq<string>)
    ensures |parts| >= 1
    ensures forall i :: 0 <= i < |parts| ==> sep !in parts[i]
  {
    if |s| == 0 then [""]
    else
      var rest := Split(s[1..], sep);
      if s[0] == sep then [""] + rest
      else [[s[0]] + rest[0]] + rest[1..]
  }

  /** `parts.join(sep)`, the inverse of `Split`. */
  function Join(parts: seq<string>, sep: char): string
    requires |parts| >= 1
  {
    if |parts| == 1 then parts[0] else parts[0] + [sep] + Join(parts[1..], sep)
  }

  /** Joining the pieces of a split restores the string. */
  lemma {:induction false} JoinSplit(s: string, sep: char)
    ensures Join(Split(s, sep), sep) == s
  {
    if |s| > 0 {
      JoinSplit(s[1..], sep);
      var rest := Split(s[1..], sep);
      if s[0] != sep {
        if |rest| > 1 {
          calc {
            Join(Split(s, sep), sep);
            ([s[0]] + rest[0]) + [sep] + Join(rest[1..], sep);
            [s[0]] + (rest[0] + [sep] + Join(rest[1..], sep));
            [s[0]] + Join(rest, sep);
          }
        }
        assert [s[0]] + s[1..] == s;
      } else {
        assert [s[0]] + s[1..] == s;
      }
    }
  }

  /** A piece without the separator, followed by `t`, splits as `t` with the piece glued on its first part. */
  lemma {:induction false} SplitPrepend(w: string, t: string, sep: char)
    requires sep !in w
    ensures Split(w + t, sep) == [w + Split(t, sep)[0]] + Split(t, sep)[1..]
  {
    if |w| > 0 {
      SplitPrepend(w[1..], t, sep);
      assert (w + t)[1..] == w[1..] + t;
      assert [w[0]] + (w[1..] + Split(t, sep)[0]) == w + Split(t, sep)[0];
    } else {
      assert w + t == t && w + Split(t, sep)[0] == Split(t, sep)[0];
      assert Split(t, sep) == [Split(t, sep)[0]] + Split(t, sep)[1..];
    }
  }

  /** Splitting the join of separator-free pieces gives back the pieces. */
  lemma {:induction false} SplitJoin(parts: seq<string>, sep: char)
    requires |parts| >= 1
    requires forall i :: 0 <= i < |parts| ==> sep !in parts[i]
    ensures Split(Join(parts, sep), sep) == parts
  {
    if |parts| == 1 {
      SplitPrepend(parts[0], "", sep);
      assert parts[0] + "" == parts[0];
    } else {
      var tail := Join(parts[1..], sep);
      SplitJoin(parts[1..], sep);
      assert ([sep] + tail)[1..] == tail;
      assert Split([sep] + tail, sep) == [""] + parts[1..];
      SplitPrepend(parts[0], [sep] + tail, sep);
      assert parts[0] + [sep] + tail == parts[0] + ([sep] + tail);
      assert parts[0] + "" == parts[0];
      assert [parts[0]] + parts[1..] == parts;
    }
  }
}
