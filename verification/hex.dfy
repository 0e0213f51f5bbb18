/** The `{:08x}` rendering of the accumulator and its inverse: lower-case
    hexadecimal, most significant digit first, zero-padded to eight digits. */
module Hex {
  import opened Words

  datatype Option<+T> = None | Some(value: T)

  /** 16^n: one more hex digit multiplies the range by sixteen. */
  function Pow16(n: nat): (p: nat)
    ensures p >= 1
  {
    if n == 0 then 1 else 16 * Pow16(n - 1)
  }

  predicate IsLowerHex(c: char)
  {
    '0' <= c <= '9' || 'a' <= c <= 'f'
  }

  /** The lower-case digit for a value below sixteen. */
  function DigitChar(d: nat): (c: char)
    requires d < 16
    ensures IsLowerHex(c)
  {
    if d < 10 then ('0' as int + d) as char else ('a' as int + d - 10) as char
  }

  /** The value of a lower-case hex digit; None for any other character. */
  function DigitValue(c: char): (r: Option<nat>)
    ensures r.Some? <==> IsLowerHex(c)
    ensures r.Some? ==> r.value < 16 && DigitChar(r.value) == c
  {
    if '0' <= c <= '9' then Some(c as int - '0' as int)
    else if 'a' <= c <= 'f' then Some(c as int - 'a' as int + 10)
    else None
  }

  /** Reading back the character of a digit gives the digit. */
  lemma DigitRoundTrip(d: nat)
    requires d < 16
    ensures DigitValue(DigitChar(d)) == Some(d)
  {
  }

  /** The n lowest hex digits of v, most significant first: `{:0nx}` truncated to n digits. */
  function HexDigits(v: nat, n: nat): (s: string)
  {
    if n == 0 then [] else HexDigits(v / 16, n - 1) + [DigitChar(v % 16)]
  }

  /** `format!("{:08x}", w)` for a 32-bit word. */
  function Hex8(w: U32): string
  {
    HexDigits(w, 8)
  }

  /** Reads a string of lower-case hex digits as a number; None on any other character. */
  function ParseHex(s: string): Option<nat>
  {
    if s == [] then Some(0)
    else
      var p := ParseHex(s[..|s| - 1]);
      var d := DigitValue(s[|s| - 1]);
      if p.Some? && d.Some? then Some(16 * p.value + d.value) else None
  }

  /** `Hash::to_string` as a value: the words rendered in index order and concatenated. */
  function Render(words: seq<U32>): string
  {
    if words == [] then [] else Render(words[..|words| - 1]) + Hex8(words[|words| - 1])
  }

  /** Splits a string into groups of eight hex digits and parses each as a word. */
  function ParseGroups(s: string): (r: Option<seq<U32>>)
    ensures r.Some? ==> 8 * |r.value| == |s|
  {
    if s == [] then Some([])
    else if |s| < 8 then None
    else
      var ws := ParseGroups(s[..|s| - 8]);
      var w := ParseHex(s[|s| - 8..]);
      if ws.Some? && w.Some? then
        ParseHexBound(s[|s| - 8..]);
        Pow16Eight();
        Some(ws.value + [w.value])
      else None
  }

  /** Parses a fingerprint back into the eight lanes it was rendered from. */
  function ParseFingerprint(s: string): (r: Option<Lanes>)
  {
    if |s| != 64 then None
    else match ParseGroups(s)
      case Some(ws) => Some(ws)
      case None => None
  }

  // ---- Properties of the rendering ----

  /** Eight hex digits cover exactly the range of a 32-bit word. */
  lemma Pow16Eight()
    ensures Pow16(8) == Modulus
  {
  }

  lemma {:induction false} HexDigitsShape(v: nat, n: nat)
    ensures |HexDigits(v, n)| == n
    ensures forall k :: 0 <= k < n ==> IsLowerHex(HexDigits(v, n)[k])
  {
    if n > 0 {
      HexDigitsShape(v / 16, n - 1);
    }
  }

  /** n == 16 * q + d splits n modulo 16^(k+1) into its top k digits and its last one. */
  lemma ModPow16(v: nat, n: nat)
    requires n >= 1
    ensures v % Pow16(n) == 16 * ((v / 16) % Pow16(n - 1)) + v % 16
  {
    var p := Pow16(n - 1);
    var q := v / 16;
    var a := q / p;
    var b := q % p;
    assert q == p * a + b;
    assert v == 16 * q + v % 16;
    assert v == (16 * p) * a + (16 * b + v % 16) by {
      calc {
        v;
        16 * (p * a + b) + v % 16;
        { assert 16 * (p * a) == (16 * p) * a; }
        (16 * p) * a + (16 * b + v % 16);
      }
    }
    assert 16 * b + v % 16 < 16 * p by {
      assert b <= p - 1;
    }
    DivModUnique(v, 16 * p, 16 * b + v % 16, a);
  }

  /** n digits parse to a value below 16^n. */
  lemma {:induction false} ParseHexBound(s: string)
    ensures ParseHex(s).Some? ==> ParseHex(s).value < Pow16(|s|)
  {
    if s != [] && ParseHex(s).Some? {
      var init := s[..|s| - 1];
      ParseHexBound(init);
      var p := ParseHex(init).value;
      var d := DigitValue(s[|s| - 1]).value;
      assert ParseHex(s).value == 16 * p + d;
      assert p <= Pow16(|init|) - 1;
    }
  }

  /** Parsing one more digit multiplies by sixteen and adds the digit. */
  lemma ParseHexSnoc(t: string, c: char)
    requires ParseHex(t).Some? && IsLowerHex(c)
    ensures ParseHex(t + [c]) == Some(16 * ParseHex(t).value + DigitValue(c).value)
  {
    assert (t + [c])[..|t|] == t;
  }

  /** Parsing n rendered digits gives back the value modulo 16^n. */
  lemma {:induction false} ParseHexDigits(v: nat, n: nat)
    ensures ParseHex(HexDigits(v, n)) == Some(v % Pow16(n))
  {
    if n > 0 {
      var s := HexDigits(v, n);
      var init := HexDigits(v / 16, n - 1);
      var c := DigitChar(v % 16);
      var q := (v / 16) % Pow16(n - 1);
      assert s == init + [c];
      assert ParseHex(init) == Some(q) by {
        ParseHexDigits(v / 16, n - 1);
      }
      assert ParseHex(s) == Some(16 * q + v % 16) by {
        HexDigitsShape(v / 16, n - 1);
        DigitRoundTrip(v % 16);
        ParseHexSnoc(init, c);
      }
      ModPow16(v, n);
    } else {
      assert Pow16(0) == 1 && v % 1 == 0;
    }
  }

  /** A parsed string renders back to itself: the digit count fixes the padding. */
  lemma {:induction false} HexDigitsParse(s: string)
    requires ParseHex(s).Some?
    ensures HexDigits(ParseHex(s).value, |s|) == s
  {
    if s != [] {
      var init := s[..|s| - 1];
      var p := ParseHex(init).value;
      var d := DigitValue(s[|s| - 1]).value;
      HexDigitsParse(init);
      var v := 16 * p + d;
      DivModUnique(v, 16, d, p);
      assert s == init + [s[|s| - 1]];
    }
  }

  /** A value with at most n hex digits parses back from its n-digit rendering. */
  lemma ParseHexDigitsBelow(v: nat, n: nat)
    requires v < Pow16(n)
    ensures ParseHex(HexDigits(v, n)) == Some(v)
  {
    ParseHexDigits(v, n);
    DivModUnique(v, Pow16(n), v, 0);
  }

  lemma Hex8Parse(w: U32)
    ensures |Hex8(w)| == 8
    ensures ParseHex(Hex8(w)) == Some(w)
  {
    HexDigitsShape(w, 8);
    Pow16Eight();
    ParseHexDigitsBelow(w, 8);
  }

  /** One step of the rendering: appending digit d to the value v appends its character. */
  lemma HexDigitsStep(v: nat, d: nat, n: nat)
    requires d < 16
    ensures HexDigits(16 * v + d, n + 1) == HexDigits(v, n) + [DigitChar(d)]
  {
    DivModUnique(16 * v + d, 16, d, v);
  }

  /** Appending four digits to v appends their four characters. */
  lemma HexDigitsFour(v: nat, n: nat, d0: nat, d1: nat, d2: nat, d3: nat)
    requires d0 < 16 && d1 < 16 && d2 < 16 && d3 < 16
    ensures HexDigits(0x1_0000 * v + 0x1000 * d0 + 0x100 * d1 + 0x10 * d2 + d3, n + 4)
         == HexDigits(v, n) + [DigitChar(d0)] + [DigitChar(d1)] + [DigitChar(d2)] + [DigitChar(d3)]
  {
    var v1 := 16 * v + d0;
    var v2 := 16 * v1 + d1;
    var v3 := 16 * v2 + d2;
    var v4 := 16 * v3 + d3;
    HexDigitsStep(v, d0, n);
    HexDigitsStep(v1, d1, n + 1);
    HexDigitsStep(v2, d2, n + 2);
    HexDigitsStep(v3, d3, n + 3);
    assert v4 == 0x1_0000 * v + 0x1000 * d0 + 0x100 * d1 + 0x10 * d2 + d3;
  }

  /** The eight digits of a word, most significant first, are what `{:08x}` writes. */
  lemma Hex8Digits(d0: nat, d1: nat, d2: nat, d3: nat, d4: nat, d5: nat, d6: nat, d7: nat)
    requires d0 < 16 && d1 < 16 && d2 < 16 && d3 < 16 && d4 < 16 && d5 < 16 && d6 < 16 && d7 < 16
    ensures var w := 0x1000_0000 * d0 + 0x100_0000 * d1 + 0x10_0000 * d2 + 0x1_0000 * d3
                   + 0x1000 * d4 + 0x100 * d5 + 0x10 * d6 + d7;
            w < Modulus &&
            Hex8(w) == [DigitChar(d0)] + [DigitChar(d1)] + [DigitChar(d2)] + [DigitChar(d3)]
                       + [DigitChar(d4)] + [DigitChar(d5)] + [DigitChar(d6)] + [DigitChar(d7)]
  {
    var hi := 0x1000 * d0 + 0x100 * d1 + 0x10 * d2 + d3;
    HexDigitsFour(0, 0, d0, d1, d2, d3);
    HexDigitsFour(hi, 4, d4, d5, d6, d7);
    assert HexDigits(0, 0) == [];
  }

  /** Rendering one more word appends its eight digits. */
  lemma RenderSnoc(words: seq<U32>, w: U32)
    ensures Render(words + [w]) == Render(words) + Hex8(w)
  {
    assert (words + [w])[..|words|] == words;
  }

  /** The rendering is 8 characters per word, all lower-case hex digits,
      and characters 8i..8i+8 are word i zero-padded to eight digits. */
  lemma {:induction false} RenderShape(words: seq<U32>)
    ensures |Render(words)| == 8 * |words|
    ensures forall k :: 0 <= k < |Render(words)| ==> IsLowerHex(Render(words)[k])
    ensures forall i :: 0 <= i < |words| ==> Render(words)[8 * i .. 8 * i + 8] == Hex8(words[i])
  {
    if words != [] {
      var init := words[..|words| - 1];
      var last := words[|words| - 1];
      RenderShape(init);
      HexDigitsShape(last, 8);
      var r := Render(words);
      assert r == Render(init) + Hex8(last);
      forall i | 0 <= i < |words|
        ensures r[8 * i .. 8 * i + 8] == Hex8(words[i])
      {
        if i < |words| - 1 {
          assert words[i] == init[i];
          assert r[8 * i .. 8 * i + 8] == Render(init)[8 * i .. 8 * i + 8];
        } else {
          assert r[8 * i .. 8 * i + 8] == Hex8(last);
        }
      }
    }
  }

  /** `to_string` always yields 64 lower-case hex characters. */
  lemma FingerprintShape(lanes: Lanes)
    ensures |Render(lanes)| == 64
    ensures forall k :: 0 <= k < 64 ==> IsLowerHex(Render(lanes)[k])
    ensures forall i :: 0 <= i < HashSize ==> Render(lanes)[8 * i .. 8 * i + 8] == Hex8(lanes[i])
  {
    RenderShape(lanes);
  }

  lemma {:induction false} ParseGroupsRender(words: seq<U32>)
    ensures ParseGroups(Render(words)) == Some(words)
  {
    if words != [] {
      var init := words[..|words| - 1];
      var last := words[|words| - 1];
      assert words == init + [last];
      RenderSnoc(init, last);
      ParseGroupsRender(init);
      Hex8Parse(last);
      ParseGroupsSnoc(Render(init), Hex8(last), init, last);
    }
  }

  /** Appending a parsable group of eight digits appends its word to the parse. */
  lemma ParseGroupsSnoc(front: string, group: string, ws: seq<U32>, w: U32)
    requires ParseGroups(front) == Some(ws)
    requires |group| == 8 && ParseHex(group) == Some(w)
    ensures ParseGroups(front + group) == Some(ws + [w])
  {
    var s := front + group;
    assert s[..|s| - 8] == front && s[|s| - 8..] == group;
  }

  lemma {:induction false} RenderParseGroups(s: string)
    requires ParseGroups(s).Some?
    ensures Render(ParseGroups(s).value) == s
  {
    if s != [] {
      var ws := ParseGroups(s[..|s| - 8]).value;
      var group := s[|s| - 8..];
      RenderParseGroups(s[..|s| - 8]);
      HexDigitsParse(group);
      var words := ParseGroups(s).value;
      assert words[..|words| - 1] == ws;
      assert s == s[..|s| - 8] + group;
    }
  }

  /** Round trip: parsing a fingerprint gives back the lanes it was rendered from. */
  lemma ParseRender(lanes: Lanes)
    ensures ParseFingerprint(Render(lanes)) == Some(lanes)
  {
    RenderShape(lanes);
    ParseGroupsRender(lanes);
  }

  /** Round trip the other way: a string that parses is exactly the rendering of what it parses to,
      so parsing and re-rendering reproduces the string. */
  lemma RenderParse(s: string)
    requires ParseFingerprint(s).Some?
    ensures Render(ParseFingerprint(s).value) == s
    ensures |s| == 64 && forall k :: 0 <= k < 64 ==> IsLowerHex(s[k])
  {
    RenderParseGroups(s);
    RenderShape(ParseFingerprint(s).value);
  }

  /** Two different states never render to the same string. */
  lemma RenderInjective(a: Lanes, b: Lanes)
    requires Render(a) == Render(b)
    ensures a == b
  {
    ParseRender(a);
    ParseRender(b);
  }
}
