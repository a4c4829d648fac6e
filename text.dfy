/** Bytes, UTF-8 well-formedness (as `str::from_utf8` checks it), ASCII text helpers
  * and the extension normaliser used by the directory queries. */
module Text {
  import opened Io

  type Byte = x: int | 0 <= x < 256

  /** A continuation byte `10xxxxxx`. */
  predicate IsCont(x: Byte) { 0x80 <= x <= 0xBF }

  /** Length of the well-formed UTF-8 sequence at the head of `b`, or 0 when the head
    * is not one (overlong forms, surrogates and code points above U+10FFFF are refused). */
  function LeadWidth(b: seq<Byte>): (w: nat)
    requires |b| > 0
    ensures w <= 4 && w <= |b|
    ensures w == 1 <==> b[0] < 0x80
  {
    var b0 := b[0];
    if b0 < 0x80 then 1
    else if 0xC2 <= b0 <= 0xDF then
      (if |b| >= 2 && IsCont(b[1]) then 2 else 0)
    else if b0 == 0xE0 then
      (if |b| >= 3 && 0xA0 <= b[1] <= 0xBF && IsCont(b[2]) then 3 else 0)
    else if 0xE1 <= b0 <= 0xEC || b0 == 0xEE || b0 == 0xEF then
      (if |b| >= 3 && IsCont(b[1]) && IsCont(b[2]) then 3 else 0)
    else if b0 == 0xED then
      (if |b| >= 3 && 0x80 <= b[1] <= 0x9F && IsCont(b[2]) then 3 else 0)
    else if b0 == 0xF0 then
      (if |b| >= 4 && 0x90 <= b[1] <= 0xBF && IsCont(b[2]) && IsCont(b[3]) then 4 else 0)
    else if 0xF1 <= b0 <= 0xF3 then
      (if |b| >= 4 && IsCont(b[1]) && IsCont(b[2]) && IsCont(b[3]) then 4 else 0)
    else if b0 == 0xF4 then
      (if |b| >= 4 && 0x80 <= b[1] <= 0x8F && IsCont(b[2]) && IsCont(b[3]) then 4 else 0)
    else 0
  }

  /** `std::str::from_utf8(b).is_ok()`. */
  predicate IsUtf8(b: seq<Byte>)
    decreases |b|
  {
    b == [] || (LeadWidth(b) > 0 && IsUtf8(b[LeadWidth(b)..]))
  }

  /** A Rust `String`: bytes that are well-formed UTF-8. */
  type Utf8 = b: seq<Byte> | IsUtf8(b) witness []

  predicate IsAscii(b: seq<Byte>) { forall i :: 0 <= i < |b| ==> b[i] < 0x80 }

  /** Pure ASCII is well-formed UTF-8: every byte is a sequence of its own. */
  lemma {:induction false} AsciiIsUtf8(b: seq<Byte>)
    requires IsAscii(b)
    ensures IsUtf8(b)
    decreases |b|
  {
    if b != [] {
      assert LeadWidth(b) == 1;
      assert IsAscii(b[1..]) by {
        forall i | 0 <= i < |b[1..]| ensures b[1..][i] < 0x80 { assert b[1..][i] == b[i + 1]; }
      }
      AsciiIsUtf8(b[1..]);
    }
  }

  /** Two well-formed texts concatenate to a well-formed text (appending a valid `&str`
    * to a `String` keeps it a `String`). */
  lemma {:induction false} Utf8Concat(a: seq<Byte>, b: seq<Byte>)
    requires IsUtf8(a) && IsUtf8(b)
    ensures IsUtf8(a + b)
    decreases |a|
  {
    if a != [] {
      var w := LeadWidth(a);
      assert w > 0 && IsUtf8(a[w..]);
      LeadWidthPrefix(a, a + b);
      assert (a + b)[w..] == a[w..] + b;
      Utf8Concat(a[w..], b);
      assert LeadWidth(a + b) == w && IsUtf8((a + b)[w..]);
    } else {
      assert a + b == b;
    }
  }

  /** The head sequence's width depends only on its own bytes. */
  lemma LeadWidthPrefix(a: seq<Byte>, c: seq<Byte>)
    requires |a| > 0 && LeadWidth(a) > 0
    requires |c| >= |a| && c[..|a|] == a
    ensures LeadWidth(c) == LeadWidth(a)
  {
    var w := LeadWidth(a);
    assert forall i :: 0 <= i < |a| ==> c[i] == a[i] by {
      forall i | 0 <= i < |a| ensures c[i] == a[i] { assert c[..|a|][i] == c[i]; }
    }
  }

  /** A 0xFF byte can never start a UTF-8 sequence, so bytes holding one are not text
    * (the `[0xFF, 0xFE]` contents that the string readers refuse). */
  lemma InvalidLeadByte(b: seq<Byte>)
    requires |b| > 0 && b[0] >= 0xF5
    ensures !IsUtf8(b)
  {
  }

  /** ASCII upper case to lower case; every other character is kept. */
  function LowerChar(c: char): char
  {
    if 'A' <= c <= 'Z' then (c as int + 32) as char else c
  }

  function Lower(s: string): (r: string)
    ensures |r| == |s|
    ensures forall i :: 0 <= i < |s| ==> r[i] == LowerChar(s[i])
  {
    if s == [] then [] else [LowerChar(s[0])] + Lower(s[1..])
  }

  /** Lower-casing twice changes nothing more. */
  lemma LowerIdempotent(s: string)
    ensures Lower(Lower(s)) == Lower(s)
  {
  }

  /** Strings that differ only in ASCII case lower-case to the same string. */
  predicate SameIgnoringCase(a: string, b: string) { Lower(a) == Lower(b) }

  /** The extension normaliser: leading dots are dropped and letters lower-cased,
    * so "RS", ".rs" and "Rs" all become "rs". */
  function NormalizeExt(s: string): (r: string)
    ensures |r| <= |s|
    ensures r == [] || r[0] != '.'
    ensures forall i :: 0 <= i < |r| ==> r[i] == LowerChar(r[i])
  {
    if s != [] && s[0] == '.' then NormalizeExt(s[1..]) else Lower(s)
  }

  /** The variant returning `None` for an extension that normalises to nothing. */
  function NormalizeExtOpt(s: string): (r: Option<string>)
    ensures r.None? <==> NormalizeExt(s) == []
    ensures r.Some? ==> r.value == NormalizeExt(s)
  {
    var n := NormalizeExt(s);
    if n == [] then None else Some(n)
  }

  /** The number a string of decimal digits denotes, most significant digit first. */
  function DigitsValue(s: string): nat
    requires forall i :: 0 <= i < |s| ==> '0' <= s[i] <= '9'
  {
    if s == [] then 0 else DigitsValue(s[..|s| - 1]) * 10 + (s[|s| - 1] as int - '0' as int)
  }

  /** Decimal rendering of a natural number, used when building file names and messages:
    * digits only, no leading zero, denoting `n`. */
  function NatToString(n: nat): (r: string)
    ensures |r| > 0
    ensures forall i :: 0 <= i < |r| ==> '0' <= r[i] <= '9'
    ensures r[0] == '0' ==> r == "0"
    ensures DigitsValue(r) == n
    decreases n
  {
    var d := ['0' + (n % 10) as char];
    if n < 10 then d
    else
      var h := NatToString(n / 10);
      assert (h + d)[..|h + d| - 1] == h;
      h + d
  }

  /** Different numbers render differently, so counters give different names. */
  lemma NatToStringInjective(a: nat, b: nat)
    ensures NatToString(a) == NatToString(b) ==> a == b
  {
    if NatToString(a) == NatToString(b) {
      assert DigitsValue(NatToString(a)) == DigitsValue(NatToString(b));
    }
  }
}
