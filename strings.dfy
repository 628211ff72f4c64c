/** The string operations the parser relies on: Python's `str.strip()`, `str.split(',')`
    and the decimal subset of `int(str)`. */
module Strings {
  import opened Sequences

  datatype Option<T> = None | Some(value: T)

  /** Python's whitespace characters up to U+00FF (what `str.isspace` accepts there). */
  predicate IsSpace(c: char)
  {
    c == ' ' || c == '\t' || c == '\n' || c == '\r' || c == '\U{B}' || c == '\U{C}'
    || c == '\U{1C}' || c == '\U{1D}' || c == '\U{1E}' || c == '\U{1F}'
    || c == '\U{85}' || c == '\U{A0}'
  }

  /** U+001C to U+001F: whitespace to `str.strip()`, but neither skipped nor a digit to `int()`. */
  predicate IsSeparator(c: char)
  {
    '\U{1C}' <= c <= '\U{1F}'
  }

  /** Which whitespace set a trim removes: `str.strip()`'s, or the one `int()` skips around a
      number, which is the ASCII characters `\t \n \v \f \r` and space plus non-ASCII
      whitespace, leaving out the separators. */
  datatype Whitespace = StripSpace | IntSpace

  predicate IsWhitespace(w: Whitespace, c: char)
  {
    IsSpace(c) && (w == IntSpace ==> !IsSeparator(c))
  }

  /** The number of `w` whitespace characters at the start of `s`. */
  function LeadingSpaces(s: string, w: Whitespace): (n: nat)
    ensures n <= |s|
    ensures forall k :: 0 <= k < n ==> IsWhitespace(w, s[k])
    ensures n < |s| ==> !IsWhitespace(w, s[n])
  {
    if s == [] || !IsWhitespace(w, s[0]) then 0 else 1 + LeadingSpaces(s[1..], w)
  }

  /** The number of `w` whitespace characters at the end of `s`. */
  function TrailingSpaces(s: string, w: Whitespace): (n: nat)
    ensures n <= |s|
    ensures forall k :: |s| - n <= k < |s| ==> IsWhitespace(w, s[k])
    ensures n < |s| ==> !IsWhitespace(w, s[|s| - 1 - n])
  {
    if s == [] || !IsWhitespace(w, s[|s| - 1]) then 0 else 1 + TrailingSpaces(s[..|s| - 1], w)
  }

  /** `t` has no `w` whitespace character at either end. */
  predicate Trimmed(t: string, w: Whitespace)
  {
    t == [] || (!IsWhitespace(w, t[0]) && !IsWhitespace(w, t[|t| - 1]))
  }

  /** `s` without its leading and trailing `w` whitespace characters. */
  function Trim(s: string, w: Whitespace): (t: string)
    ensures Trimmed(t, w)
  {
    var rest := s[LeadingSpaces(s, w)..];
    rest[..|rest| - TrailingSpaces(rest, w)]
  }

  /** Python's `s.strip()`: `s` without its leading and trailing whitespace, so no whitespace
      is left at either end. */
  function Strip(s: string): (t: string)
    ensures Trimmed(t, StripSpace)
  {
    Trim(s, StripSpace)
  }

  /** Stripping removes only whitespace, and only from the two ends. */
  lemma StripSpec(s: string)
    ensures exists i, j ::
              && 0 <= i <= j <= |s| && Strip(s) == s[i..j]
              && (forall k :: 0 <= k < i ==> IsSpace(s[k]))
              && (forall k :: j <= k < |s| ==> IsSpace(s[k]))
  {
    var i := LeadingSpaces(s, StripSpace);
    var rest := s[i..];
    var j := i + |rest| - TrailingSpaces(rest, StripSpace);
    assert Strip(s) == s[i..j];
    assert forall k :: j <= k < |s| ==> s[k] == rest[k - i];
  }

  /** A string with no `w` whitespace character at either end is its own trim. */
  lemma TrimUnchanged(s: string, w: Whitespace)
    requires Trimmed(s, w)
    ensures Trim(s, w) == s
  {
    assert LeadingSpaces(s, w) == 0;
    assert s[0..] == s;
  }

  /** Python's `s.split(sep)` for a one-character separator: the pieces between separators,
      empty pieces included, so there is always at least one piece. */
  function Split(s: string, sep: char): (parts: seq<string>)
    ensures |parts| >= 1
  {
    if s == [] then [""]
    else
      var rest := Split(s[1..], sep);
      if s[0] == sep then [""] + rest else [[s[0]] + rest[0]] + rest[1..]
  }

  /** No piece contains the separator. */
  lemma {:induction false} SplitPiecesHaveNoSeparator(s: string, sep: char)
    ensures forall k :: 0 <= k < |Split(s, sep)| ==> sep !in Split(s, sep)[k]
  {
    if s != [] {
      SplitPiecesHaveNoSeparator(s[1..], sep);
    }
  }

  /** Python's `sep.join(parts)`: the inverse of `Split`. */
  function Join(parts: seq<string>, sep: char): string
    requires |parts| >= 1
  {
    if |parts| == 1 then parts[0] else parts[0] + [sep] + Join(parts[1..], sep)
  }

  lemma {:induction false} JoinConsHead(c: char, parts: seq<string>, sep: char)
    requires |parts| >= 1
    ensures Join([[c] + parts[0]] + parts[1..], sep) == [c] + Join(parts, sep)
  {
    var ps := [[c] + parts[0]] + parts[1..];
    assert ps[1..] == parts[1..];
  }

  /** Splitting loses nothing: joining the pieces with the separator gives back the string. */
  lemma {:induction false} JoinSplit(s: string, sep: char)
    ensures Join(Split(s, sep), sep) == s
  {
    if s != [] {
      var rest := Split(s[1..], sep);
      JoinSplit(s[1..], sep);
      if s[0] == sep {
        assert ([""] + rest)[1..] == rest;
      } else {
        JoinConsHead(s[0], rest, sep);
      }
      assert [s[0]] + s[1..] == s;
    }
  }

  /** A string without the separator is a single piece. */
  lemma {:induction false} SplitWithoutSeparator(s: string, sep: char)
    requires sep !in s
    ensures Split(s, sep) == [s]
  {
    if s != [] {
      SplitWithoutSeparator(s[1..], sep);
      assert [s[0]] + s[1..] == s;
    }
  }

  /** A piece without the separator, then the separator: the piece comes off the front. */
  lemma {:induction false} SplitAfterPiece(piece: string, sep: char, t: string)
    requires sep !in piece
    ensures Split(piece + [sep] + t, sep) == [piece] + Split(t, sep)
  {
    var s := piece + [sep] + t;
    if piece == [] {
      assert s[1..] == t;
    } else {
      assert s[1..] == piece[1..] + [sep] + t;
      SplitAfterPiece(piece[1..], sep, t);
      assert [piece[0]] + piece[1..] == piece;
    }
  }

  /** Joining pieces that contain no separator and splitting again gives back the pieces. */
  lemma {:induction false} SplitJoin(parts: seq<string>, sep: char)
    requires |parts| >= 1
    requires forall k :: 0 <= k < |parts| ==> sep !in parts[k]
    ensures Split(Join(parts, sep), sep) == parts
  {
    if |parts| == 1 {
      SplitWithoutSeparator(parts[0], sep);
    } else {
      SplitJoin(parts[1..], sep);
      SplitAfterPiece(parts[0], sep, Join(parts[1..], sep));
      assert [parts[0]] + parts[1..] == parts;
    }
  }

  /** The first and last characters of a join: those of the first and last pieces, or the
      separator where the first piece is empty. */
  lemma {:induction false} JoinEnds(parts: seq<string>, sep: char)
    requires |parts| >= 1
    ensures var s := Join(parts, sep);
      && (parts[0] != [] ==> s != [] && s[0] == parts[0][0])
      && (parts[0] == [] && |parts| > 1 ==> s != [] && s[0] == sep)
      && (parts[|parts| - 1] != [] ==> s != [] && s[|s| - 1] == parts[|parts| - 1][|parts[|parts| - 1]| - 1])
  {
    if |parts| > 1 {
      JoinEnds(parts[1..], sep);
    }
  }

  /** Splitting yields exactly one more piece than there are separators. */
  lemma {:induction false} SplitCount(s: string, sep: char)
    ensures |Split(s, sep)| == Occurrences(s, sep) + 1
  {
    if s != [] {
      SplitCount(s[1..], sep);
    }
  }

  predicate IsDigit(c: char)
  {
    '0' <= c <= '9'
  }

  function DigitValue(c: char): nat
    requires IsDigit(c)
  {
    c as int - '0' as int
  }

  /** The value of a string of decimal digits, most significant first. */
  function DigitsValue(d: string): (v: nat)
    requires forall k :: 0 <= k < |d| ==> IsDigit(d[k])
  {
    if d == [] then 0 else DigitsValue(d[..|d| - 1]) * 10 + DigitValue(d[|d| - 1])
  }

  /** An optional sign followed by one or more ASCII digits. */
  predicate IsIntLiteral(t: string)
  {
    && |t| >= 1
    && (forall k :: 0 <= k < |t| ==> IsDigit(t[k]) || (k == 0 && (t[k] == '+' || t[k] == '-')))
    && (|t| == 1 ==> IsDigit(t[0]))
  }

  /** No character of `s` is a separator. */
  predicate NoSeparators(s: string)
  {
    forall k :: 0 <= k < |s| ==> !IsSeparator(s[k])
  }

  /** The decimal part of Python's `int(s)`: optional surrounding whitespace, an optional
      `+` or `-`, then one or more ASCII digits (leading zeros allowed). Anything else is
      the `ValueError` case, `None` here. A separator anywhere in `s` is that case: `int()`
      does not skip it and it is no digit. Otherwise `int()` skips exactly what `strip()`
      removes, so the text is read from `Strip(s)` (`ParseIntSkipsIntSpace`). */
  function ParseInt(s: string): (r: Option<int>)
    ensures r.Some? <==> NoSeparators(s) && IsIntLiteral(Strip(s))
    ensures r.Some? && r.value < 0 ==> Strip(s)[0] == '-'
  {
    var t := Strip(s);
    var negative := |t| > 0 && t[0] == '-';
    var digits := if |t| > 0 && (t[0] == '-' || t[0] == '+') then t[1..] else t;
    if !NoSeparators(s) || digits == [] || exists k :: 0 <= k < |digits| && !IsDigit(digits[k]) then None
    else
      var magnitude: int := DigitsValue(digits);
      Some(if negative then -magnitude else magnitude)
  }

  /** Without separators, the two whitespace sets agree on `s`, and so do the counts at its start. */
  lemma {:induction false} LeadingSpacesAgree(s: string)
    requires NoSeparators(s)
    ensures LeadingSpaces(s, IntSpace) == LeadingSpaces(s, StripSpace)
  {
    if s != [] {
      assert NoSeparators(s[1..]) by {
        assert forall k :: 0 <= k < |s| - 1 ==> s[1..][k] == s[k + 1];
      }
      LeadingSpacesAgree(s[1..]);
    }
  }

  /** Without separators, the counts at the end of `s` agree too. */
  lemma {:induction false} TrailingSpacesAgree(s: string)
    requires NoSeparators(s)
    ensures TrailingSpaces(s, IntSpace) == TrailingSpaces(s, StripSpace)
  {
    if s != [] {
      assert NoSeparators(s[..|s| - 1]) by {
        assert forall k :: 0 <= k < |s| - 1 ==> s[..|s| - 1][k] == s[k];
      }
      TrailingSpacesAgree(s[..|s| - 1]);
    }
  }

  /** Without separators, trimming `int()`'s whitespace is stripping. */
  lemma TrimAgree(s: string)
    requires NoSeparators(s)
    ensures Trim(s, IntSpace) == Strip(s)
  {
    LeadingSpacesAgree(s);
    var rest := s[LeadingSpaces(s, StripSpace)..];
    assert NoSeparators(rest) by {
      assert forall k :: 0 <= k < |rest| ==> rest[k] == s[k + LeadingSpaces(s, StripSpace)];
    }
    TrailingSpacesAgree(rest);
  }

  /** A text whose `int()` trim is a literal has no separator: the trimmed ends are `int()`
      whitespace and the literal holds only digits and a sign. */
  lemma LiteralHasNoSeparators(s: string)
    requires IsIntLiteral(Trim(s, IntSpace))
    ensures NoSeparators(s)
  {
    var i := LeadingSpaces(s, IntSpace);
    var rest := s[i..];
    var j := i + |rest| - TrailingSpaces(rest, IntSpace);
    var t := Trim(s, IntSpace);
    assert t == s[i..j];
    forall k | 0 <= k < |s|
      ensures !IsSeparator(s[k])
    {
      if k < i {
        assert IsWhitespace(IntSpace, s[k]);
      } else if k < j {
        assert s[k] == t[k - i];
      } else {
        assert s[k] == rest[k - i];
        assert IsWhitespace(IntSpace, rest[k - i]);
      }
    }
  }

  /** `ParseInt` reads the number exactly as `int()` does: it succeeds iff what is left after
      removing `int()`'s own whitespace from both ends is a literal, and then that is the text
      it reads. */
  lemma ParseIntSkipsIntSpace(s: string)
    ensures ParseInt(s).Some? <==> IsIntLiteral(Trim(s, IntSpace))
    ensures ParseInt(s).Some? ==> Trim(s, IntSpace) == Strip(s)
  {
    if IsIntLiteral(Trim(s, IntSpace)) {
      LiteralHasNoSeparators(s);
    }
    if NoSeparators(s) {
      TrimAgree(s);
    }
  }

  /** The decimal digits of `n`, most significant first, with no leading zero. */
  function NatDigits(n: nat): (d: string)
    ensures |d| >= 1
    ensures forall k :: 0 <= k < |d| ==> IsDigit(d[k])
  {
    if n < 10 then [('0' as int + n) as char]
    else NatDigits(n / 10) + [('0' as int + n % 10) as char]
  }

  /** Python's `str(n)` for an integer. */
  function IntToString(n: int): (s: string)
    ensures |s| >= 1 && IsDigit(s[|s| - 1])
    ensures forall k :: 0 <= k < |s| ==> IsDigit(s[k]) || (k == 0 && s[k] == '-' && n < 0)
  {
    if n < 0 then "-" + NatDigits(-n) else NatDigits(n)
  }

  lemma {:induction false} DigitsValueOfNatDigits(n: nat)
    ensures DigitsValue(NatDigits(n)) == n
  {
    if n >= 10 {
      DigitsValueOfNatDigits(n / 10);
      var d := NatDigits(n);
      assert d[..|d| - 1] == NatDigits(n / 10);
    }
  }

  /** `int(str(n)) == n`: every integer written in decimal parses back to itself. */
  lemma ParseIntOfIntToString(n: int)
    ensures ParseInt(IntToString(n)) == Some(n)
  {
    var s := IntToString(n);
    var d := NatDigits(if n < 0 then -n else n);
    assert NoSeparators(s);
    TrimUnchanged(s, StripSpace);
    if n < 0 {
      assert s[1..] == d;
    }
    DigitsValueOfNatDigits(if n < 0 then -n else n);
  }
}
