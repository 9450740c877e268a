/** The parts of java.lang and Apache commons-lang that the query builder relies on:
    whitespace classification, blank tests, stripping, joining, splitting on commas and
    decimal conversion of longs. Strings are sequences of chars. */
module JavaStrings {

  /** java.lang.Character.isWhitespace: the ASCII controls U+0009..U+000D and
      U+001C..U+001F, the space, and the Unicode space, line and paragraph separators
      other than the no-break spaces. */
  predicate IsWhitespace(c: char) {
    || ('\t' <= c <= '\r')
    || ('\U{1C}' <= c <= ' ')
    || c == '\U{1680}'
    || ('\U{2000}' <= c <= '\U{2006}')
    || ('\U{2008}' <= c <= '\U{200A}')
    || c == '\U{2028}' || c == '\U{2029}' || c == '\U{205F}' || c == '\U{3000}'
  }

  /** No character of s is whitespace. */
  predicate IsClean(s: string) {
    forall i :: 0 <= i < |s| ==> !IsWhitespace(s[i])
  }

  /** StringUtils.isBlank on a non-null string: empty or whitespace only. */
  predicate IsBlank(s: string) {
    forall i :: 0 <= i < |s| ==> IsWhitespace(s[i])
  }

  /** StringUtils.defaultIfBlank */
  function DefaultIfBlank(s: string, fallback: string): string {
    if IsBlank(s) then fallback else s
  }

  /** StringUtils.deleteWhitespace: the non-whitespace characters of s, in order. */
  function DeleteWhitespace(s: string): (r: string)
    ensures IsClean(r)
    ensures |r| <= |s|
    ensures r == [] <==> IsBlank(s)
  {
    if s == [] then []
    else
      var rest := DeleteWhitespace(s[1..]);
      assert IsBlank(s) <==> IsWhitespace(s[0]) && IsBlank(s[1..]) by {
        if IsWhitespace(s[0]) && IsBlank(s[1..]) {
          forall i | 0 <= i < |s| ensures IsWhitespace(s[i]) {
            if i > 0 { assert s[i] == s[1..][i - 1]; }
          }
        }
      }
      (if IsWhitespace(s[0]) then [] else [s[0]]) + rest
  }

  lemma {:induction false} DeleteWhitespaceConcat(a: string, b: string)
    ensures DeleteWhitespace(a + b) == DeleteWhitespace(a) + DeleteWhitespace(b)
  {
    if a == [] {
      assert a + b == b;
    } else {
      assert (a + b)[1..] == a[1..] + b;
      DeleteWhitespaceConcat(a[1..], b);
    }
  }

  /** A string without whitespace is left as it is. */
  lemma {:induction false} DeleteWhitespaceKeepsClean(s: string)
    requires IsClean(s)
    ensures DeleteWhitespace(s) == s
  {
    if s != [] {
      assert IsClean(s[1..]) by {
        forall i | 0 <= i < |s[1..]| ensures !IsWhitespace(s[1..][i]) {
          assert s[1..][i] == s[i + 1];
        }
      }
      DeleteWhitespaceKeepsClean(s[1..]);
    }
  }

  lemma DeleteWhitespaceIdempotent(s: string)
    ensures DeleteWhitespace(DeleteWhitespace(s)) == DeleteWhitespace(s)
  {
    DeleteWhitespaceKeepsClean(DeleteWhitespace(s));
  }

  /** StringUtils.stripStart(s, null) */
  function StripStart(s: string): (r: string)
    ensures |r| <= |s| && r == s[|s| - |r|..]
    ensures IsBlank(s[..|s| - |r|])
    ensures r != [] ==> !IsWhitespace(r[0])
  {
    if s != [] && IsWhitespace(s[0]) then
      var r := StripStart(s[1..]);
      assert s[1..][..|s| - 1 - |r|] == s[1..|s| - |r|];
      r
    else s
  }

  /** StringUtils.stripEnd(s, null) */
  function StripEnd(s: string): (r: string)
    ensures |r| <= |s| && r == s[..|r|]
    ensures IsBlank(s[|r|..])
    ensures r != [] ==> !IsWhitespace(r[|r| - 1])
  {
    if s != [] && IsWhitespace(s[|s| - 1]) then
      var r := StripEnd(s[..|s| - 1]);
      assert s[..|s| - 1][|r|..] == s[|r|..|s| - 1];
      r
    else s
  }

  /** StringUtils.strip(s): s without its leading and trailing whitespace. */
  function Strip(s: string): (r: string)
    ensures r == [] <==> IsBlank(s)
    ensures r != [] ==> !IsWhitespace(r[0]) && !IsWhitespace(r[|r| - 1])
  {
    var t := StripStart(s);
    var r := StripEnd(t);
    assert r == [] ==> IsBlank(s) by {
      if r == [] {
        assert t[|r|..] == t;
        forall i | 0 <= i < |s| ensures IsWhitespace(s[i]) {
          assert s[i] == s[..|s| - |t|][i];
        }
      }
    }
    r
  }

  /** Strip only removes whitespace: s is some blank prefix, then Strip(s), then some
      blank suffix. */
  lemma StripIsInfix(s: string) returns (i: nat, j: nat)
    ensures i <= j <= |s|
    ensures Strip(s) == s[i..j]
    ensures IsBlank(s[..i]) && IsBlank(s[j..])
  {
    var t := StripStart(s);
    var r := StripEnd(t);
    i := |s| - |t|;
    j := i + |r|;
    assert s[j..] == t[|r|..];
  }

  lemma StripIdempotent(s: string)
    ensures Strip(Strip(s)) == Strip(s)
  {
    var r := Strip(s);
    if r != [] {
      assert StripStart(r) == r;
      assert StripEnd(r) == r;
    }
  }

  /** String.join(separator, parts); also Collectors.joining(separator) and
      StringUtils.join(parts, separator). */
  function Join(separator: string, parts: seq<string>): string {
    if |parts| == 0 then ""
    else if |parts| == 1 then parts[0]
    else parts[0] + separator + Join(separator, parts[1..])
  }

  /** A join starts with its first piece, so it is not blank when that piece is not. */
  lemma JoinStartsWithFirst(separator: string, parts: seq<string>)
    requires |parts| > 0
    ensures parts[0] <= Join(separator, parts)
    ensures !IsBlank(parts[0]) ==> !IsBlank(Join(separator, parts))
  {
    var j := Join(separator, parts);
    if !IsBlank(parts[0]) {
      var k :| 0 <= k < |parts[0]| && !IsWhitespace(parts[0][k]);
      assert j[k] == parts[0][k];
    }
  }

  /** The pieces of s between commas, empty pieces included. */
  function CommaPieces(s: string): (r: seq<string>)
    ensures |r| >= 1
    ensures forall i :: 0 <= i < |r| ==> ',' !in r[i]
  {
    if s == [] then [""]
    else
      var rest := CommaPieces(s[1..]);
      if s[0] == ',' then [""] + rest
      else [[s[0]] + rest[0]] + rest[1..]
  }

  /** The pieces with every empty piece at the end removed. */
  function DropTrailingEmpty(pieces: seq<string>): (r: seq<string>)
    ensures r <= pieces
    ensures r == [] || r[|r| - 1] != ""
    ensures forall i :: |r| <= i < |pieces| ==> pieces[i] == ""
  {
    if pieces != [] && pieces[|pieces| - 1] == "" then DropTrailingEmpty(pieces[..|pieces| - 1])
    else pieces
  }

  /** Java's s.split(","): a string without a comma splits into itself; otherwise into the
      pieces between commas, trailing empty pieces removed. */
  function SplitOnComma(s: string): (r: seq<string>)
    ensures forall i :: 0 <= i < |r| ==> ',' !in r[i]
  {
    if ',' !in s then [s] else DropTrailingEmpty(CommaPieces(s))
  }

  /** Joining the pieces with commas gives back the string. */
  lemma {:induction false} JoinCommaPieces(s: string)
    ensures Join(",", CommaPieces(s)) == s
  {
    if s != [] {
      var rest := CommaPieces(s[1..]);
      JoinCommaPieces(s[1..]);
      if s[0] == ',' {
        assert ([""] + rest)[1..] == rest;
      } else {
        var ps := [[s[0]] + rest[0]] + rest[1..];
        if |rest| > 1 {
          assert ps[1..] == rest[1..];
        }
      }
    }
  }

  lemma {:induction false} CommaPiecesOfClean(p: string)
    requires ',' !in p
    ensures CommaPieces(p) == [p]
  {
    if p != [] {
      CommaPiecesOfClean(p[1..]);
      assert [p[0]] + p[1..] == p;
    }
  }

  lemma {:induction false} CommaPiecesAfterPiece(p: string, rest: string)
    requires ',' !in p
    ensures CommaPieces(p + "," + rest) == [p] + CommaPieces(rest)
  {
    if p == [] {
      assert (p + "," + rest)[1..] == rest;
    } else {
      assert (p + "," + rest)[1..] == p[1..] + "," + rest;
      CommaPiecesAfterPiece(p[1..], rest);
      assert [p[0]] + p[1..] == p;
    }
  }

  /** Splitting the pieces back out of a comma join: the inverse of JoinCommaPieces. */
  lemma {:induction false} CommaPiecesOfJoin(parts: seq<string>)
    requires |parts| >= 1
    requires forall i :: 0 <= i < |parts| ==> ',' !in parts[i]
    ensures CommaPieces(Join(",", parts)) == parts
  {
    if |parts| == 1 {
      CommaPiecesOfClean(parts[0]);
    } else {
      CommaPiecesOfJoin(parts[1..]);
      CommaPiecesAfterPiece(parts[0], Join(",", parts[1..]));
    }
  }

  /** split(",") undoes a comma join of comma-free pieces, provided the last piece is
      not empty (Java drops trailing empty pieces) or there is a single piece. */
  lemma SplitOnCommaOfJoin(parts: seq<string>)
    requires |parts| >= 1
    requires forall i :: 0 <= i < |parts| ==> ',' !in parts[i]
    requires |parts| == 1 || parts[|parts| - 1] != ""
    ensures SplitOnComma(Join(",", parts)) == parts
  {
    CommaPiecesOfJoin(parts);
    var s := Join(",", parts);
    if |parts| == 1 {
      assert s == parts[0];
    } else {
      assert s == parts[0] + "," + Join(",", parts[1..]);
      assert s[|parts[0]|] == ',';
    }
  }

  function DigitChar(d: nat): char
    requires d < 10
  {
    ('0' as int + d) as char
  }

  /** The decimal digits of n, most significant first. */
  function NatToString(n: nat): (r: string)
    ensures |r| >= 1
    ensures forall i :: 0 <= i < |r| ==> '0' <= r[i] <= '9'
  {
    if n < 10 then [DigitChar(n)] else NatToString(n / 10) + [DigitChar(n % 10)]
  }

  /** Long.toString / String.valueOf(long) */
  function IntToString(n: int): (r: string)
    ensures |r| >= 1
    ensures forall i :: 0 <= i < |r| ==> r[i] == '-' || '0' <= r[i] <= '9'
  {
    if n < 0 then "-" + NatToString(-n) else NatToString(n)
  }

  function ParseNat(s: string): int {
    if s == [] then 0 else ParseNat(s[..|s| - 1]) * 10 + (s[|s| - 1] as int - '0' as int)
  }

  /** The digits of s after an optional sign. */
  function Unsigned(s: string): string {
    if |s| > 0 && (s[0] == '-' || s[0] == '+') then s[1..] else s
  }

  /** The strings Long.valueOf accepts (within range): an optional sign, then at least one
      decimal digit and nothing else. */
  predicate IsDecimal(s: string) {
    |Unsigned(s)| > 0 && forall i :: 0 <= i < |Unsigned(s)| ==> '0' <= Unsigned(s)[i] <= '9'
  }

  /** Long.valueOf on a string IsDecimal accepts. */
  function ParseLong(s: string): int {
    if |s| > 0 && s[0] == '-' then -ParseNat(s[1..]) else ParseNat(Unsigned(s))
  }

  /** The decimal text of every integer is accepted by Long.valueOf. */
  lemma IntToStringIsDecimal(n: int)
    ensures IsDecimal(IntToString(n))
  {
    var s := IntToString(n);
    if n < 0 {
      assert s[1..] == NatToString(-n);
    } else {
      assert '0' <= s[0] <= '9';
    }
  }

  lemma {:induction false} ParseNatToString(n: nat)
    ensures ParseNat(NatToString(n)) == n
  {
    if n >= 10 {
      var t := NatToString(n / 10);
      var s := t + [DigitChar(n % 10)];
      assert s[..|s| - 1] == t;
      ParseNatToString(n / 10);
    }
  }

  /** Long.valueOf inverts Long.toString. */
  lemma ParseLongToString(n: int)
    ensures ParseLong(IntToString(n)) == n
  {
    if n < 0 {
      assert IntToString(n)[1..] == NatToString(-n);
      ParseNatToString(-n);
    } else {
      assert '0' <= IntToString(n)[0] <= '9';
      ParseNatToString(n);
    }
  }
}
