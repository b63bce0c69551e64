/** Percent-decoding of URI text (section 2.1 of RFC 3986), as the query-string
    and URL stages use it to measure lengths: every `%` followed by two
    hexadecimal digits stands for the character with that code, and any other
    `%` stays as it is. */
module PercentDecoding {

  predicate IsHexDigit(c: char) {
    '0' <= c <= '9' || 'a' <= c <= 'f' || 'A' <= c <= 'F'
  }

  function HexValue(c: char): (v: nat)
    requires IsHexDigit(c)
    ensures v < 16
  {
    if '0' <= c <= '9' then c as int - '0' as int
    else if 'a' <= c <= 'f' then c as int - 'a' as int + 10
    else c as int - 'A' as int + 10
  }

  /** The upper-case digit for a value below 16. */
  function HexDigit(v: nat): (c: char)
    requires v < 16
    ensures IsHexDigit(c) && HexValue(c) == v
  {
    if v < 10 then ('0' as int + v) as char else ('A' as int + v - 10) as char
  }

  /** A valid escape starts `s`. */
  predicate StartsWithEscape(s: string) {
    |s| >= 3 && s[0] == '%' && IsHexDigit(s[1]) && IsHexDigit(s[2])
  }

  /** `Uri.UnescapeDataString` on escapes of single characters. */
  function Unescape(s: string): (r: string)
    ensures |r| <= |s|
    decreases |s|
  {
    if s == [] then []
    else if StartsWithEscape(s) then [(HexValue(s[1]) * 16 + HexValue(s[2])) as char] + Unescape(s[3..])
    else [s[0]] + Unescape(s[1..])
  }

  /** Text without `%` is its own decoding. */
  lemma {:induction false} UnescapeWithoutPercent(s: string)
    requires '%' !in s
    ensures Unescape(s) == s
    decreases |s|
  {
    if s != [] {
      assert s[0] in s;
      assert forall c :: c in s[1..] ==> c in s;
      UnescapeWithoutPercent(s[1..]);
      assert s == [s[0]] + s[1..];
    }
  }

  /** The number of valid escapes `Unescape` replaces. */
  function EscapeCount(s: string): nat
    decreases |s|
  {
    if s == [] then 0
    else if StartsWithEscape(s) then 1 + EscapeCount(s[3..])
    else EscapeCount(s[1..])
  }

  /** Each escape replaces three characters by one. */
  lemma {:induction false} UnescapedLength(s: string)
    ensures |Unescape(s)| == |s| - 2 * EscapeCount(s)
    decreases |s|
  {
    if s != [] {
      if StartsWithEscape(s) {
        UnescapedLength(s[3..]);
      } else {
        UnescapedLength(s[1..]);
      }
    }
  }

  /** Every character with a code below 256 written as `%XX`. */
  function Escape(s: string): (r: string)
    requires forall i :: 0 <= i < |s| ==> s[i] as int < 256
    ensures |r| == 3 * |s|
  {
    if s == [] then []
    else ['%', HexDigit(s[0] as int / 16), HexDigit(s[0] as int % 16)] + Escape(s[1..])
  }

  /** Decoding undoes escaping. */
  lemma {:induction false} UnescapeEscape(s: string)
    requires forall i :: 0 <= i < |s| ==> s[i] as int < 256
    ensures Unescape(Escape(s)) == s
    decreases |s|
  {
    if s != [] {
      var e := Escape(s);
      assert e[3..] == Escape(s[1..]);
      assert StartsWithEscape(e);
      assert (HexValue(e[1]) * 16 + HexValue(e[2])) as char == s[0];
      UnescapeEscape(s[1..]);
      assert s == [s[0]] + s[1..];
    }
  }

  /** Text without `%` followed by escapes keeps its text and gets one
      character per escape. */
  lemma {:induction false} PrefixThenEscapes(prefix: string, s: string)
    requires '%' !in prefix
    requires forall i :: 0 <= i < |s| ==> s[i] as int < 256
    ensures Unescape(prefix + Escape(s)) == prefix + s
    decreases |prefix|
  {
    if prefix == [] {
      assert prefix + Escape(s) == Escape(s);
      UnescapeEscape(s);
    } else {
      var t := prefix + Escape(s);
      assert t[1..] == prefix[1..] + Escape(s);
      assert Unescape(t) == [prefix[0]] + Unescape(t[1..]) by {
        assert t[0] == prefix[0] && prefix[0] in prefix;
      }
      assert '%' !in prefix[1..] by {
        assert forall c :: c in prefix[1..] ==> c in prefix;
      }
      PrefixThenEscapes(prefix[1..], s);
      assert prefix == [prefix[0]] + prefix[1..];
    }
  }

  /** Escaping read off position by position: the `i`-th character becomes
      the three characters from `3 * i`. */
  lemma {:induction false} EscapeMatches(s: string, e: string)
    requires forall i :: 0 <= i < |s| ==> s[i] as int < 256
    requires |e| == 3 * |s|
    requires forall i :: 0 <= i < |s| ==>
      e[3 * i] == '%' && e[3 * i + 1] == HexDigit(s[i] as int / 16) && e[3 * i + 2] == HexDigit(s[i] as int % 16)
    ensures Escape(s) == e
    decreases |s|
  {
    if s != [] {
      var rest := e[3..];
      forall i | 0 <= i < |s| - 1
        ensures rest[3 * i] == '%' && rest[3 * i + 1] == HexDigit(s[1..][i] as int / 16)
        ensures rest[3 * i + 2] == HexDigit(s[1..][i] as int % 16)
      {
        assert s[1..][i] == s[i + 1];
        assert 3 * (i + 1) == 3 * i + 3;
      }
      EscapeMatches(s[1..], rest);
      assert e == [e[0], e[1], e[2]] + rest;
    }
  }

  /** The escaped text of the stages' tests. */
  lemma SevenEscapes()
    ensures Escape("HIPQRST") == "%48%49%50%51%52%53%54"
  {
    var s := "HIPQRST";
    assert forall i :: 0 <= i < 7 ==> s[i] as int / 16 == (if i < 2 then 4 else 5) && s[i] as int % 16 == [8, 9, 0, 1, 2, 3, 4][i];
    assert HexDigit(4) == '4' && HexDigit(5) == '5' && HexDigit(8) == '8' && HexDigit(9) == '9';
    assert HexDigit(0) == '0' && HexDigit(1) == '1' && HexDigit(2) == '2' && HexDigit(3) == '3';
    EscapeMatches(s, "%48%49%50%51%52%53%54");
  }
}
