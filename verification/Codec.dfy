/** include/hibp.hpp: password records, their text form and their order. */
module Codec {
  import opened Wrappers
  import opened Orders
  import opened Bytes

  /** pawned_pw: `hash` has 20 bytes for sha1, 16 for ntlm and 8 for sha1t64; `count` is an int32. */
  datatype Pw = Pw(hash: seq<Byte>, count: int)

  predicate IsInt32(n: int) { -0x8000_0000 <= n < 0x8000_0000 }

  predicate ValidPw(r: Pw, hashSize: nat) { |r.hash| == hashSize && IsInt32(r.count) }

  const PREFIX_STR_SIZE := 5

  /** suffix_str_size: the characters of a hash's text behind the prefix. */
  function SuffixStrSize(hashSize: nat): nat { if hashSize < 3 then 0 else 2 * hashSize - PREFIX_STR_SIZE }

  // ---------- hexadecimal ----------

  predicate IsDigit(c: char) { '0' <= c <= '9' }
  predicate IsUpperHex(c: char) { IsDigit(c) || 'A' <= c <= 'F' }
  predicate IsHex(c: char) { IsUpperHex(c) || 'a' <= c <= 'f' }

  /** Clears bit 5, the mask ~('a' - 'A'). */
  function ClearCaseBit(n: nat): int { if n / 32 % 2 == 1 then n - 32 else n }

  function MakeNibble(c: char): (n: nat)
    requires IsHex(c)
    ensures n < 16
  {
    var nibble := c as int - '0' as int;
    if nibble > 9 then ClearCaseBit(nibble) - ('A' as int - '0' as int) + 10 else nibble
  }

  function MakeByte(msc: char, lsc: char): Byte
    requires IsHex(msc) && IsHex(lsc)
  {
    MakeNibble(msc) * 16 + MakeNibble(lsc)
  }

  function NibbleToChar(n: nat): (c: char)
    requires n < 16
    ensures IsUpperHex(c)
  {
    if n < 10 then (n + '0' as int) as char else (n + 'A' as int - 10) as char
  }

  ghost predicate HexText(text: string, len: nat) {
    |text| >= len && forall i :: 0 <= i < len ==> IsHex(text[i])
  }

  ghost predicate UpperHexText(text: string) {
    forall i :: 0 <= i < |text| ==> IsUpperHex(text[i])
  }

  ghost function HashText(hash: seq<Byte>): string {
    if hash == [] then "" else [NibbleToChar(hash[0] / 16), NibbleToChar(hash[0] % 16)] + HashText(hash[1..])
  }

  ghost function ParseHash(text: string, size: nat): seq<Byte>
    requires HexText(text, 2 * size)
  {
    seq(size, i requires 0 <= i < size => MakeByte(text[2 * i], text[2 * i + 1]))
  }

  lemma NibbleRoundTrip(n: nat, c: char)
    ensures n < 16 ==> MakeNibble(NibbleToChar(n)) == n
    ensures IsUpperHex(c) ==> NibbleToChar(MakeNibble(c)) == c
    ensures 'a' <= c <= 'f' ==> MakeNibble(c) == c as int - 'a' as int + 10
  {
  }

  lemma UpperIsHex(c: char)
    ensures IsUpperHex(c) ==> IsHex(c)
  {
  }

  lemma ByteRoundTrip(b: Byte)
    ensures MakeByte(NibbleToChar(b / 16), NibbleToChar(b % 16)) == b
  {
  }

  lemma CharsRoundTrip(m: char, l: char)
    requires IsUpperHex(m) && IsUpperHex(l)
    ensures NibbleToChar(MakeByte(m, l) / 16) == m && NibbleToChar(MakeByte(m, l) % 16) == l
  {
  }

  lemma {:induction false} HashTextShape(hash: seq<Byte>)
    ensures |HashText(hash)| == 2 * |hash| && UpperHexText(HashText(hash))
    ensures forall i :: 0 <= i < |hash| ==>
              && HashText(hash)[2 * i] == NibbleToChar(hash[i] / 16)
              && HashText(hash)[2 * i + 1] == NibbleToChar(hash[i] % 16)
  {
    if hash != [] {
      HashTextShape(hash[1..]);
      var t := HashText(hash);
      assert forall i :: 2 <= i < |t| ==> t[i] == HashText(hash[1..])[i - 2];
      forall i | 1 <= i < |hash|
        ensures t[2 * i] == NibbleToChar(hash[i] / 16) && t[2 * i + 1] == NibbleToChar(hash[i] % 16)
      {
        assert t[2 * i] == HashText(hash[1..])[2 * (i - 1)] && t[2 * i + 1] == HashText(hash[1..])[2 * (i - 1) + 1];
      }
    }
  }

  lemma ParseHashText(hash: seq<Byte>, rest: string)
    ensures HexText(HashText(hash) + rest, 2 * |hash|)
    ensures ParseHash(HashText(hash) + rest, |hash|) == hash
  {
    hide MakeByte, NibbleToChar, HashText, IsHex;
    HashTextShape(hash);
    var t := HashText(hash);
    var text := t + rest;
    forall i | 0 <= i < 2 * |hash| ensures text[i] == t[i] && IsHex(text[i]) { UpperIsHex(t[i]); }
    var parsed := ParseHash(text, |hash|);
    forall i | 0 <= i < |hash| ensures parsed[i] == hash[i] {
      var high, low := text[2 * i], text[2 * i + 1];
      assert high == t[2 * i] && low == t[2 * i + 1];
      ByteRoundTrip(hash[i]);
    }
  }

  lemma HashTextParse(text: string, size: nat)
    requires HexText(text, 2 * size) && UpperHexText(text[..2 * size])
    ensures HashText(ParseHash(text, size)) == text[..2 * size]
  {
    hide MakeByte, NibbleToChar, HashText, IsHex;
    var hash := ParseHash(text, size);
    HashTextShape(hash);
    var upper := text[..2 * size];
    forall k | 0 <= k < 2 * size ensures HashText(hash)[k] == upper[k] {
      var i := k / 2;
      assert upper[2 * i] == text[2 * i] && upper[2 * i + 1] == text[2 * i + 1];
      CharsRoundTrip(text[2 * i], text[2 * i + 1]);
      assert HashText(hash)[2 * i] == NibbleToChar(hash[i] / 16);
      assert HashText(hash)[2 * i + 1] == NibbleToChar(hash[i] % 16);
    }
  }

  // ---------- decimal (std::to_chars and std::from_chars for int32) ----------

  function DigitChar(n: nat): char requires n < 10 { (n + '0' as int) as char }

  function DecNat(n: nat): string {
    if n < 10 then [DigitChar(n)] else DecNat(n / 10) + [DigitChar(n % 10)]
  }

  function ToChars(n: int): string { if n < 0 then "-" + DecNat(-n) else DecNat(n) }

  function LeadingDigits(s: string): (n: nat)
    ensures n <= |s| && forall i :: 0 <= i < n ==> IsDigit(s[i])
    ensures n < |s| ==> !IsDigit(s[n])
  {
    if s != "" && IsDigit(s[0]) then 1 + LeadingDigits(s[1..]) else 0
  }

  function DigitsValue(s: string): nat
    requires forall i :: 0 <= i < |s| ==> IsDigit(s[i])
  {
    if s == "" then 0
    else
      assert IsDigit(s[|s| - 1]);
      DigitsValue(s[..|s| - 1]) * 10 + (s[|s| - 1] as int - '0' as int)
  }

  function IfInt32(n: int): Option<int> { if IsInt32(n) then Some(n) else None }

  function Number(s: string, negative: bool): Option<int> {
    var n := LeadingDigits(s);
    if n == 0 then None
    else
      var magnitude: int := DigitsValue(s[..n]);
      IfInt32(if negative then -magnitude else magnitude)
  }

  /** The longest number at the front; nothing if there is none or it does not fit an int32. */
  function FromChars(s: string): Option<int> {
    if s != "" && s[0] == '-' then Number(s[1..], true) else Number(s, false)
  }

  /** Decimal text without superfluous zeros or signs. */
  ghost predicate CanonicalDigits(s: string) {
    s != "" && (forall i :: 0 <= i < |s| ==> IsDigit(s[i])) && (|s| > 1 ==> s[0] != '0')
  }

  ghost predicate CanonicalInt32(s: string) {
    if s != "" && s[0] == '-'
    then CanonicalDigits(s[1..]) && s[1..] != "0" && DigitsValue(s[1..]) <= 0x8000_0000
    else CanonicalDigits(s) && DigitsValue(s) < 0x8000_0000
  }

  lemma {:induction false} DecNatCanonical(n: nat)
    ensures CanonicalDigits(DecNat(n)) && DigitsValue(DecNat(n)) == n
    ensures DecNat(n) == "0" ==> n == 0
    ensures n > 0 ==> DecNat(n)[0] != '0'
  {
    if n >= 10 {
      DecNatCanonical(n / 10);
      assert DecNat(n)[..|DecNat(n)| - 1] == DecNat(n / 10);
    } else {
      assert DecNat(n)[..0] == "";
    }
  }

  lemma DecNatSplit(m: nat, d: nat)
    requires m > 0 && d < 10
    ensures DecNat(m * 10 + d) == DecNat(m) + [DigitChar(d)]
  {
  }

  /** All digits but the last, and what the last one adds. */
  lemma LastDigit(s: string)
    requires CanonicalDigits(s)
    ensures var init, last := s[..|s| - 1], s[|s| - 1];
      && s == init + [last] && IsDigit(last)
      && (if init == "" then true else CanonicalDigits(init) && init != "0")
  {
    var init := s[..|s| - 1];
    assert init != "" ==> init[0] == s[0];
  }

  lemma LastDigitAdds(s: string)
    requires s != "" && forall i :: 0 <= i < |s| ==> IsDigit(s[i])
    ensures DigitsValue(s) == DigitsValue(s[..|s| - 1]) * 10 + (s[|s| - 1] as int - '0' as int)
  {
  }

  lemma {:induction false} DigitsValueCanonical(s: string)
    requires CanonicalDigits(s)
    ensures DecNat(DigitsValue(s)) == s
    ensures s != "0" ==> DigitsValue(s) > 0
  {
    LastDigit(s);
    LastDigitAdds(s);
    var init, last := s[..|s| - 1], s[|s| - 1];
    DigitCharOf(last);
    if init == "" {
      assert DigitsValue(init) == 0;
    } else {
      DigitsValueCanonical(init);
      hide DecNat, DigitsValue, CanonicalDigits;
      DecNatSplit(DigitsValue(init), last as int - '0' as int);
    }
  }

  lemma DigitCharOf(c: char)
    requires IsDigit(c)
    ensures var d: nat := c as int - '0' as int; d < 10 && DecNat(d) == [DigitChar(d)] == [c]
  {
  }

  lemma LeadingDigitsOf(s: string, rest: string)
    requires forall i :: 0 <= i < |s| ==> IsDigit(s[i])
    requires rest == "" || !IsDigit(rest[0])
    ensures LeadingDigits(s + rest) == |s|
  {
    var n := LeadingDigits(s + rest);
    assert forall i :: 0 <= i < |s| ==> (s + rest)[i] == s[i];
    assert rest != "" ==> (s + rest)[|s|] == rest[0];
  }

  /** The digits at the front are the number, whatever non-digit follows. */
  lemma NumberIs(d: string, rest: string, negative: bool)
    requires d != "" && forall i :: 0 <= i < |d| ==> IsDigit(d[i])
    requires rest == "" || !IsDigit(rest[0])
    ensures Number(d + rest, negative) == IfInt32(if negative then -(DigitsValue(d) as int) else DigitsValue(d))
    ensures FromChars(if negative then "-" + (d + rest) else d + rest) == Number(d + rest, negative)
  {
    hide LeadingDigits, DigitsValue, IfInt32;
    LeadingDigitsOf(d, rest);
    assert (d + rest)[..|d|] == d;
    hide Number;
    assert (d + rest)[0] == d[0] && d[0] != '-';
    assert ("-" + (d + rest))[1..] == d + rest;
  }

  /** from_chars undoes to_chars, whatever non-digit follows. */
  lemma FromToChars(n: int, rest: string)
    requires IsInt32(n) && (rest == "" || !IsDigit(rest[0]))
    ensures ToChars(n) != "" && FromChars(ToChars(n) + rest) == Some(n)
  {
    hide DecNat, DigitsValue, FromChars;
    var m: nat := if n < 0 then -n else n;
    DecNatCanonical(m);
    NumberIs(DecNat(m), rest, n < 0);
    assert ("-" + DecNat(m)) + rest == "-" + (DecNat(m) + rest);
  }

  /** to_chars undoes from_chars on canonical text. */
  lemma ToFromChars(s: string)
    requires CanonicalInt32(s)
    ensures FromChars(s).Some? && ToChars(FromChars(s).value) == s
  {
    hide DecNat, DigitsValue, FromChars, Number;
    var d := if s[0] == '-' then s[1..] else s;
    DigitsValueCanonical(d);
    NumberIs(d, "", s[0] == '-');
    hide CanonicalDigits;
    assert d + "" == d && s == if s[0] == '-' then "-" + d else d;
  }

  // ---------- records as text ----------

  /** Where the constructor looks for the count; a full sha1 line read as sha1t64 has it further on. */
  function CountIndex(text: string, hashSize: nat): nat {
    var strSize := 2 * hashSize;
    if hashSize == 8 && |text| > strSize && text[strSize] != ':' && |text| >= 40 then 41 else strSize + 1
  }

  function CountOf(text: string, idx: nat): int {
    if |text| > idx then
      match FromChars(text[idx..])
      case Some(n) => n
      case None => -1
    else -1
  }

  ghost function Parse(text: string, hashSize: nat): Pw
    requires HexText(text, 2 * hashSize)
  {
    Pw(ParseHash(text, hashSize), CountOf(text, CountIndex(text, hashSize)))
  }

  ghost function Render(r: Pw): string {
    HashText(r.hash) + ":" + ToChars(r.count)
  }

  /** The constructor from text. */
  method PawnedPw(text: string, hashSize: nat) returns (r: Pw)
    requires HexText(text, 2 * hashSize)
    ensures r == Parse(text, hashSize)
  {
    hide MakeByte, FromChars, IsHex;
    var hash: seq<Byte> := [];
    for i := 0 to hashSize
      invariant hash == ParseHash(text, hashSize)[..i]
    {
      hash := hash + [MakeByte(text[2 * i], text[2 * i + 1])];
    }
    var count := -1;
    var countIdx := 2 * hashSize + 1;
    if hashSize == 8 && |text| > 16 && text[16] != ':' && |text| >= 40 {
      countIdx := 41;
    }
    if |text| > countIdx {
      var parsed := FromChars(text[countIdx..]);
      if parsed.Some? { count := parsed.value; }
    }
    r := Pw(hash, count);
  }

  lemma {:induction false} DecNatLength(n: nat, digits: nat)
    requires digits > 0 && n < Pow10(digits)
    ensures |DecNat(n)| <= digits
  {
    if n >= 10 { DecNatLength(n / 10, digits - 1); }
  }

  function Pow10(k: nat): nat { if k == 0 then 1 else 10 * Pow10(k - 1) }

  /** to_string: fills a 60-character buffer through a moving pointer; no hash size overruns it. */
  method ToString(r: Pw) returns (s: string)
    requires ValidPw(r, |r.hash|) && |r.hash| <= 20
    ensures s == Render(r)
  {
    hide NibbleToChar, HashText, DecNat, UpperHexText;
    var buffer := new char[60];
    var ptr := 0;
    ghost var text := HashText(r.hash);
    HashTextShape(r.hash);
    for i := 0 to |r.hash|
      modifies buffer
      invariant ptr == 2 * i <= |text| && buffer[..ptr] == text[..ptr]
    {
      buffer[ptr], buffer[ptr + 1] := NibbleToChar(r.hash[i] / 16), NibbleToChar(r.hash[i] % 16);
      ptr := ptr + 2;
      assert text[2 * i] == buffer[2 * i] && text[2 * i + 1] == buffer[2 * i + 1];
    }
    buffer[ptr] := ':';
    ptr := ptr + 1;
    assert buffer[..ptr] == text + ":";
    var digits := ToChars(r.count);
    assert Pow10(10) == 10000000000;
    DecNatLength(if r.count < 0 then -r.count else r.count, 10);
    for i := 0 to |digits|
      modifies buffer
      invariant ptr == |text| + 1 + i && buffer[..ptr] == text + ":" + digits[..i]
    {
      buffer[ptr] := digits[i];
      ptr := ptr + 1;
    }
    s := buffer[..ptr];
  }

  /** Printing then parsing gives the record back, for every hash size the buffer allows and every int32 count. */
  lemma ParseRender(r: Pw)
    requires ValidPw(r, |r.hash|)
    ensures HexText(Render(r), 2 * |r.hash|) && Parse(Render(r), |r.hash|) == r
  {
    hide HashText, ToChars, FromChars, ParseHash, UpperHexText, HexText;
    var tail := ":" + ToChars(r.count);
    assert Render(r) == HashText(r.hash) + tail;
    ParseHashText(r.hash, tail);
    HashTextShape(r.hash);
    var text, n := Render(r), 2 * |r.hash|;
    assert text[n] == ':';
    assert CountIndex(text, |r.hash|) == n + 1;
    assert text[n + 1..] == ToChars(r.count) + "";
    FromToChars(r.count, "");
  }

  /** A hash with nothing behind it, as in a search, has the count -1. */
  lemma HashAlone(hash: seq<Byte>)
    ensures HexText(HashText(hash), 2 * |hash|) && Parse(HashText(hash), |hash|) == Pw(hash, -1)
  {
    hide HashText, FromChars, ParseHash;
    ParseHashText(hash, "");
    HashTextShape(hash);
    assert HashText(hash) + "" == HashText(hash);
  }

  /** Text that does not begin with a number, or with one that is no int32, leaves the count at -1. */
  lemma NoCount(text: string, hashSize: nat)
    requires HexText(text, 2 * hashSize) && CountIndex(text, hashSize) <= |text|
    requires var rest := text[CountIndex(text, hashSize)..];
      var digits := if rest != "" && rest[0] == '-' then rest[1..] else rest;
      digits == "" || !IsDigit(digits[0]) || (digits == rest && DigitsValue(rest[..LeadingDigits(rest)]) > 0x7FFF_FFFF)
    ensures Parse(text, hashSize).count == -1
  {
  }

  /** A line as the program itself prints it. */
  ghost predicate CanonicalLine(line: string, hashSize: nat) {
    && |line| > 2 * hashSize && UpperHexText(line[..2 * hashSize]) && line[2 * hashSize] == ':'
    && CanonicalInt32(line[2 * hashSize + 1..])
  }

  lemma FromCharsInRange(s: string)
    ensures FromChars(s).Some? ==> IsInt32(FromChars(s).value)
  {
  }

  lemma CanonicalIsNotEmpty(s: string)
    requires CanonicalInt32(s)
    ensures s != ""
  {
  }

  lemma RenderParse(line: string, hashSize: nat)
    requires CanonicalLine(line, hashSize)
    ensures HexText(line, 2 * hashSize) && Render(Parse(line, hashSize)) == line
    ensures ValidPw(Parse(line, hashSize), hashSize)
  {
    hide ToChars, CanonicalInt32, FromChars, HashText;
    var n := 2 * hashSize;
    var head, tail := line[..n], line[n + 1..];
    forall i | 0 <= i < n ensures IsHex(line[i]) { assert head[i] == line[i]; }
    HashTextParse(line, hashSize);
    assert line == head + ":" + tail;
    FromCharsInRange(tail);
    ToFromChars(tail);
    assert CountOf(line, n + 1) == FromChars(tail).value by { CanonicalIsNotEmpty(tail); }
  }

  /** A line of a published sha1 file read as sha1t64 is the sha1 record with its hash cut to eight bytes. */
  lemma Sha1LineAsSha1t64(text: string)
    requires HexText(text, 40)
    ensures Parse(text, 8) == Pw(Parse(text, 20).hash[..8], Parse(text, 20).count)
  {
  }

  // ---------- order and equality ----------

  /** operator<=> and operator==: hashes only. */
  function PwLess(): (Pw, Pw) -> bool { (a: Pw, b: Pw) => LexLess(ByteLess(), a.hash, b.hash) }

  predicate SameHash(a: Pw, b: Pw) { a.hash == b.hash }

  /** Sorted by hash, and no hash twice. */
  ghost predicate StrictlyAscending(s: seq<Pw>) {
    forall i, j :: 0 <= i < j < |s| ==> PwLess()(s[i], s[j])
  }

  lemma PwLessIsOrder()
    ensures StrictWeakOrder(PwLess())
    ensures forall a, b :: Equivalent(PwLess(), a, b) <==> SameHash(a, b)
  {
    LexIsTotal<Byte>(ByteLess());
    var lex := (a: seq<Byte>, b: seq<Byte>) => LexLess(ByteLess(), a, b);
    forall a, b ensures Equivalent(PwLess(), a, b) <==> Equivalent(lex, a.hash, b.hash) { }
    forall a, b, c | PwLess()(a, b) && PwLess()(b, c) ensures PwLess()(a, c) {
      assert lex(a.hash, b.hash) && lex(b.hash, c.hash);
    }
    forall a, b ensures Equivalent(PwLess(), a, b) <==> SameHash(a, b) {
      LexTrichotomy<Byte>(ByteLess(), a.hash, b.hash);
    }
    forall a ensures !PwLess()(a, a) { LexTrichotomy<Byte>(ByteLess(), a.hash, a.hash); }
  }

  /** Upper-case hexadecimal text and the bytes it stands for are ordered alike. */
  lemma {:induction false} HexOrder(a: seq<Byte>, b: seq<Byte>)
    requires |a| == |b|
    ensures LexLess(CharLess(), HashText(a), HashText(b)) <==> LexLess(ByteLess(), a, b)
  {
    if a != [] {
      HexOrder(a[1..], b[1..]);
      var s, t := HashText(a), HashText(b);
      assert s[1..][1..] == HashText(a[1..]) && t[1..][1..] == HashText(b[1..]);
      assert s[1..][0] == NibbleToChar(a[0] % 16) && t[1..][0] == NibbleToChar(b[0] % 16);
      NibbleOrder(a[0] / 16, b[0] / 16);
      NibbleOrder(a[0] % 16, b[0] % 16);
      assert a[0] < b[0] <==> a[0] / 16 < b[0] / 16 || (a[0] / 16 == b[0] / 16 && a[0] % 16 < b[0] % 16);
    }
  }

  lemma NibbleOrder(m: nat, n: nat)
    requires m < 16 && n < 16
    ensures NibbleToChar(m) < NibbleToChar(n) <==> m < n
    ensures NibbleToChar(m) == NibbleToChar(n) <==> m == n
  {
  }
}
