/** Names on the wire: little-endian UTF-16 (utf16leToString and stringToUTF16le in
    internal/smb/packet.go). A char is a Unicode scalar value, as each rune of a Go string is.
  */
module Utf16 {
  import opened Bytes

  type units = seq<u16>

  const REPLACEMENT: char := '\U{FFFD}'

  predicate High(v: u16) { 0xD800 <= v < 0xDC00 }
  predicate Low(v: u16) { 0xDC00 <= v < 0xE000 }

  /** One character as one unit or a surrogate pair. */
  function Units(c: char): (u: units)
    ensures |u| > 0
  {
    var v := c as int;
    if v < 0x1_0000 then [v] else [0xD800 + (v - 0x1_0000) / 0x400, 0xDC00 + (v - 0x1_0000) % 0x400]
  }

  /** One unit below U+10000, and a high and a low surrogate with ten bits each above. */
  lemma UnitsMean(c: char)
    ensures var v, u := c as int, Units(c);
      if v < 0x1_0000 then u == [v]
      else
        && |u| == 2 && 0xD800 <= u[0] <= 0xDBFF && 0xDC00 <= u[1] <= 0xDFFF
        && v == 0x1_0000 + 1024 * (u[0] as int - 0xD800) + (u[1] as int - 0xDC00)
  {
  }

  function Encode(t: string): units {
    if t == "" then [] else Units(t[0]) + Encode(t[1..])
  }

  /** The first character of a sequence of units, and how many units it takes. */
  function First(u: units): (r: (char, nat))
    requires u != []
    ensures 0 < r.1 <= |u|
  {
    if High(u[0]) && |u| > 1 && Low(u[1]) then
      ((0x1_0000 + (u[0] as int - 0xD800) * 0x400 + (u[1] as int - 0xDC00)) as char, 2)
    else if High(u[0]) || Low(u[0]) then (REPLACEMENT, 1)
    else (u[0] as char, 1)
  }

  function Decode(u: units): string
    decreases |u|
  {
    if u == [] then "" else var (c, n) := First(u); [c] + Decode(u[n..])
  }

  /** Every surrogate is half of a pair. */
  ghost predicate WellFormed(u: units) {
    && (forall i :: 0 <= i < |u| && High(u[i]) ==> i + 1 < |u| && Low(u[i + 1]))
    && (forall i :: 0 <= i < |u| && Low(u[i]) ==> i > 0 && High(u[i - 1]))
  }

  lemma FirstOfUnits(c: char, rest: units)
    ensures First(Units(c) + rest) == (c, |Units(c)|)
  {
  }

  lemma UnitsOfFirst(u: units)
    requires u != []
    ensures Units(First(u).0) == u[..First(u).1] <==> First(u).0 != REPLACEMENT || u[0] == 0xFFFD
  {
  }

  /** Every text comes back. */
  lemma {:induction false} TextIsReadBack(t: string)
    ensures Decode(Encode(t)) == t
  {
    if t != "" {
      var rest := Encode(t[1..]);
      FirstOfUnits(t[0], rest);
      assert (Units(t[0]) + rest)[|Units(t[0])|..] == rest;
      TextIsReadBack(t[1..]);
    }
  }

  lemma WellFormedTail(u: units)
    requires u != [] && (High(u[0]) || Low(u[0]) ==> First(u).1 == 2)
    ensures WellFormed(u) <==> WellFormed(u[First(u).1..])
  {
    var n := First(u).1;
    if WellFormed(u) {
      forall i | 0 <= i < |u| - n && Low(u[n..][i]) ensures i > 0 && High(u[n..][i - 1]) {
        assert Low(u[n + i]) && High(u[n + i - 1]);
      }
      forall i | 0 <= i < |u| - n && High(u[n..][i]) ensures i + 1 < |u| - n && Low(u[n..][i + 1]) {
        assert High(u[n + i]);
      }
    }
    if WellFormed(u[n..]) {
      forall i | 0 <= i < |u| && Low(u[i]) ensures i > 0 && High(u[i - 1]) {
        if i >= n { assert u[n..][i - n] == u[i]; }
      }
      forall i | 0 <= i < |u| && High(u[i]) ensures i + 1 < |u| && Low(u[i + 1]) {
        if i >= n { assert u[n..][i - n] == u[i]; }
      }
    }
  }

  /** Decoding loses nothing exactly when every surrogate is half of a pair; any other becomes U+FFFD. */
  lemma {:induction false} DecodingIsExact(u: units)
    ensures Encode(Decode(u)) == u <==> WellFormed(u)
    decreases |u|
  {
    if u != [] {
      var (c, n) := First(u);
      assert Decode(u)[0] == c && Decode(u)[1..] == Decode(u[n..]);
      var round := Encode(Decode(u[n..]));
      assert Encode(Decode(u)) == Units(c) + round;
      if (High(u[0]) || Low(u[0])) && n == 1 {
        assert Units(c)[0] != u[0];
        assert !WellFormed(u);
      } else {
        WellFormedTail(u);
        DecodingIsExact(u[n..]);
        UnitsOfFirst(u);
        assert u == u[..n] + u[n..];
        if Encode(Decode(u)) == u {
          assert (Units(c) + round)[n..] == round;
        }
      }
    }
  }

  // ----- bytes -----

  function ToBytes(u: units): (b: bytes)
    ensures |b| == 2 * |u|
  {
    if u == [] then [] else Le(u[0], 2) + ToBytes(u[1..])
  }

  /** The units of a byte sequence; an odd byte at the end is dropped. */
  function FromBytes(b: bytes): (u: units)
    ensures |u| == |b| / 2
  {
    if |b| < 2 then [] else [Num2(b[..2])] + FromBytes(b[2..])
  }

  /** The lower byte of a unit comes first. */
  lemma LowByteFirst(v: u16, rest: units)
    ensures ToBytes([v] + rest) == [v % 256, v / 256] + ToBytes(rest)
  {
    assert ([v] + rest)[1..] == rest;
    assert Le(v, 2) == [v % 256] + Le(v / 256, 1);
    assert Le(v / 256, 1) == [v / 256 % 256] + Le(v / 256 / 256, 0);
  }

  lemma {:induction false} UnitsAreReadBack(u: units)
    ensures FromBytes(ToBytes(u)) == u
  {
    if u != [] {
      Le16(u[0]);
      assert ToBytes(u)[..2] == Le(u[0], 2) && ToBytes(u)[2..] == ToBytes(u[1..]);
      UnitsAreReadBack(u[1..]);
    }
  }

  function NameBytes(t: string): bytes { ToBytes(Encode(t)) }

  function NameText(b: bytes): string { Decode(FromBytes(b)) }

  /** A name survives the wire. */
  lemma NameIsReadBack(name: string)
    ensures NameText(NameBytes(name)) == name
  {
    UnitsAreReadBack(Encode(name));
    TextIsReadBack(name);
  }

  lemma {:induction false} ToBytesSnoc(u: units, v: u16)
    ensures ToBytes(u + [v]) == ToBytes(u) + Le(v, 2)
  {
    if u == [] {
      assert u + [v] == [v];
      assert ToBytes([v][1..]) == [];
      assert Le(v, 2) + [] == Le(v, 2);
    } else {
      assert (u + [v])[1..] == u[1..] + [v];
      ToBytesSnoc(u[1..], v);
    }
  }

  lemma {:induction false} FromBytesAt(b: bytes, i: nat)
    requires 2 * i + 2 <= |b|
    ensures FromBytes(b)[i] == Num2(b[2 * i..][..2])
  {
    if i > 0 {
      FromBytesAt(b[2..], i - 1);
      assert b[2..][2 * (i - 1)..] == b[2 * i..];
    } else {
      assert b[0..] == b;
    }
  }

  /** stringToUTF16le */
  method StringToUTF16le(s: string) returns (b: array<byte>)
    ensures fresh(b) && b[..] == NameBytes(s)
  {
    var u := Encode(s);
    b := new byte[2 * |u|];
    var i := 0;
    while i < |u|
      invariant i <= |u| && b.Length == 2 * |u|
      invariant b[..2 * i] == ToBytes(u[..i])
    {
      var f := Le(u[i], 2);
      b[2 * i] := f[0];
      b[2 * i + 1] := f[1];
      ToBytesSnoc(u[..i], u[i]);
      assert u[..i] + [u[i]] == u[..i + 1];
      assert b[..2 * (i + 1)] == b[..2 * i] + f;
      i := i + 1;
    }
    assert u[..i] == u && b[..2 * i] == b[..];
  }

  /** utf16leToString */
  method Utf16leToString(b: bytes) returns (s: string)
    ensures s == NameText(b)
  {
    var even := if |b| % 2 != 0 then b[..|b| - 1] else b;
    var u: units := [];
    while |u| < |even| / 2
      invariant |u| <= |even| / 2 && u == FromBytes(b)[..|u|]
    {
      var i := |u|;
      FromBytesAt(b, i);
      assert even[2 * i..][..2] == b[2 * i..][..2];
      u := u + [Num2(even[2 * i..][..2])];
      assert FromBytes(b)[..i + 1] == FromBytes(b)[..i] + [FromBytes(b)[i]];
    }
    assert u == FromBytes(b);
    s := Decode(u);
  }
}
