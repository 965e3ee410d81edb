/** Base-52 text of API key material (auth_tokens.py). */
module Base52 {

  type Byte = b: int | 0 <= b < 256

  /** Digits, lower case, upper case, without the visually ambiguous 0Oo1IlB8S5. */
  const DIGITS := "234679"
  const LOWER := "abcdefghijkmnpqrstuvwxyz"
  const UPPER := "ACDEFGHJKLMNPQRTUVWXYZ"
  const ALPHABET: string := DIGITS + LOWER + UPPER

  /** Position of a symbol in the alphabet, read off its contiguous runs. */
  function Rank(c: char): int {
    if '2' <= c <= '4' then c as int - '2' as int
    else if '6' <= c <= '7' then 3 + (c as int - '6' as int)
    else if c == '9' then 5
    else if 'a' <= c <= 'k' then 6 + (c as int - 'a' as int)
    else if 'm' <= c <= 'n' then 17 + (c as int - 'm' as int)
    else if 'p' <= c <= 'z' then 19 + (c as int - 'p' as int)
    else if c == 'A' then 30
    else if 'C' <= c <= 'H' then 31 + (c as int - 'C' as int)
    else if 'J' <= c <= 'N' then 37 + (c as int - 'J' as int)
    else if 'P' <= c <= 'R' then 42 + (c as int - 'P' as int)
    else if 'T' <= c <= 'Z' then 45 + (c as int - 'T' as int)
    else -1
  }

  lemma RankOfDigit(r: nat)
    requires r < 6
    ensures |DIGITS| == 6 && Rank(DIGITS[r]) == r
  {
  }

  lemma RankOfLower(r: nat)
    requires r < 24
    ensures |LOWER| == 24 && Rank(LOWER[r]) == 6 + r
  {
  }

  lemma RankOfUpper(r: nat)
    requires r < 22
    ensures |UPPER| == 22 && Rank(UPPER[r]) == 30 + r
  {
  }

  /** Rank inverts indexing, so the 52 symbols are pairwise distinct. */
  lemma RankOfSymbol(r: nat)
    requires r < 52
    ensures |ALPHABET| == 52 && Rank(ALPHABET[r]) == r
  {
    if r < 6 {
      RankOfDigit(r);
    } else if r < 30 {
      RankOfLower(r - 6);
    } else {
      RankOfUpper(r - 30);
    }
  }

  /** int.from_bytes(data, "big"). */
  function FromBytes(data: seq<Byte>): nat {
    if data == [] then 0 else FromBytes(data[..|data| - 1]) * 256 + data[|data| - 1]
  }

  /** Positional value of a text, most significant symbol first. */
  function Value(s: string): int {
    if s == "" then 0 else Value(s[..|s| - 1]) * 52 + Rank(s[|s| - 1])
  }

  function Pow(b: nat, e: nat): nat {
    if e == 0 then 1 else b * Pow(b, e - 1)
  }

  /** The text of a number, defined by its last symbol. */
  function Text(n: nat): string {
    if n < 52 then [Symbol(n)] else Text(n / 52) + [Symbol(n % 52)]
  }

  function Symbol(r: nat): char
    requires r < 52
  {
    RankOfSymbol(r);
    ALPHABET[r]
  }

  function Reversed(s: string): string {
    if s == "" then "" else Reversed(s[1..]) + [s[0]]
  }

  lemma ReversedAppend(s: string, c: char)
    ensures Reversed(s + [c]) == [c] + Reversed(s)
  {
    if s != "" {
      assert (s + [c])[1..] == s[1..] + [c];
    }
  }

  /** The symbols the loop still has to collect. */
  function Rest(n: nat): string { if n == 0 then "" else Text(n) }

  lemma LastSymbol(n: nat)
    requires n > 0
    ensures Rest(n) == Rest(n / 52) + [Symbol(n % 52)]
  {
  }

  lemma Joined(high: string, c: char, low: string)
    ensures (high + [c]) + low == high + ([c] + low)
  {
  }

  lemma CollectsSymbol(n: nat, chars: string)
    requires n > 0
    ensures Rest(n) + Reversed(chars) == Rest(n / 52) + Reversed(chars + [Symbol(n % 52)])
  {
    LastSymbol(n);
    Joined(Rest(n / 52), Symbol(n % 52), Reversed(chars));
    ReversedAppend(chars, Symbol(n % 52));
  }

  /** The encoder: repeated divmod, symbols collected least significant first, then reversed. */
  method Encode(data: seq<Byte>) returns (text: string)
    ensures text == Text(FromBytes(data))
  {
    var num: nat := IntFromBytes(data);
    ghost var whole := num;
    if num == 0 {
      assert Text(whole) == [Symbol(0)];
      return [Symbol(0)];
    }
    var chars: string := "";
    while num > 0
      invariant Rest(num) + Reversed(chars) == Text(whole)
      decreases num
    {
      CollectsSymbol(num, chars);
      num, chars := num / 52, chars + [Symbol(num % 52)];
    }
    text := ReverseText(chars);
  }

  method IntFromBytes(data: seq<Byte>) returns (num: nat)
    ensures num == FromBytes(data)
  {
    num := 0;
    for i := 0 to |data|
      invariant num == FromBytes(data[..i])
    {
      assert data[..i + 1][..i] == data[..i];
      num := num * 256 + data[i];
    }
    assert data[..|data|] == data;
  }

  method ReverseText(s: string) returns (r: string)
    ensures r == Reversed(s)
  {
    r := "";
    for i := 0 to |s|
      invariant r == Reversed(s[..i])
    {
      assert s[..i + 1] == s[..i] + [s[i]];
      ReversedAppend(s[..i], s[i]);
      r := [s[i]] + r;
    }
    assert s[..|s|] == s;
  }

  /** Decoding law: the positional value of the text is the number, for every number. */
  lemma {:induction false} ValueOfText(n: nat)
    ensures Value(Text(n)) == n
  {
    if n < 52 {
      RankOfSymbol(n);
      assert Text(n)[..0] == "";
    } else {
      RankOfSymbol(n % 52);
      ValueOfText(n / 52);
      assert Text(n)[..|Text(n)| - 1] == Text(n / 52);
    }
  }

  /** The first bytes are the most significant. */
  lemma {:induction false} FromBytesAppend(a: seq<Byte>, b: seq<Byte>)
    ensures FromBytes(a + b) == FromBytes(a) * Pow(256, |b|) + FromBytes(b)
  {
    if b == [] {
      assert a + b == a;
    } else {
      var m := |b| - 1;
      assert (a + b)[..|a + b| - 1] == a + b[..m];
      FromBytesAppend(a, b[..m]);
      assert FromBytes(a) * (256 * Pow(256, m)) == FromBytes(a) * Pow(256, m) * 256;
    }
  }

  lemma SameDigits(x: nat, b: Byte, y: nat, c: Byte)
    requires x * 256 + b == y * 256 + c
    ensures x == y && b == c
  {
  }

  lemma {:induction false} FromBytesInjective(a: seq<Byte>, b: seq<Byte>)
    requires |a| == |b| && FromBytes(a) == FromBytes(b)
    ensures a == b
  {
    if a != [] {
      var m := |a| - 1;
      SameDigits(FromBytes(a[..m]), a[m], FromBytes(b[..m]), b[m]);
      FromBytesInjective(a[..m], b[..m]);
      assert a == a[..m] + [a[m]] && b == b[..m] + [b[m]];
    }
  }

  /** Keys drawn from equally long random material are equal texts only for equal bytes. */
  lemma EncodingInjective(a: seq<Byte>, b: seq<Byte>)
    requires |a| == |b| && Text(FromBytes(a)) == Text(FromBytes(b))
    ensures a == b
  {
    ValueOfText(FromBytes(a));
    ValueOfText(FromBytes(b));
    FromBytesInjective(a, b);
  }

  /** A text has at most k symbols exactly when the number fits k base-52 places. */
  lemma {:induction false} TextLength(n: nat, k: nat)
    requires k >= 1
    ensures |Text(n)| <= k <==> n < Pow(52, k)
  {
    if k == 1 {
      assert Pow(52, 1) == 52 * Pow(52, 0) == 52;
      if n >= 52 { assert |Text(n / 52)| >= 1; }
    } else if n < 52 {
      PowAtLeastBase(k);
    } else {
      TextLength(n / 52, k - 1);
      var p := Pow(52, k - 1);
      assert Pow(52, k) == 52 * p;
      assert n / 52 < p <==> n < 52 * p;
    }
  }

  lemma {:induction false} PowAtLeastBase(k: nat)
    requires k >= 1
    ensures Pow(52, k) >= 52
  {
    if k > 1 { PowAtLeastBase(k - 1); } else { assert Pow(52, 1) == 52 * Pow(52, 0); }
  }

  lemma {:induction false} FromBytesBound(data: seq<Byte>)
    ensures FromBytes(data) < Pow(256, |data|)
  {
    if data != [] {
      FromBytesBound(data[..|data| - 1]);
    }
  }

  lemma {:induction false} PowAdd(b: nat, i: nat, j: nat)
    ensures Pow(b, i + j) == Pow(b, i) * Pow(b, j)
  {
    if i > 0 {
      PowAdd(b, i - 1, j);
      assert Pow(b, i + j) == b * Pow(b, i - 1 + j);
      assert b * (Pow(b, i - 1) * Pow(b, j)) == (b * Pow(b, i - 1)) * Pow(b, j);
    } else {
      assert Pow(b, 0) == 1;
    }
  }

  lemma PowerConstants()
    ensures Pow(256, 16) == 340282366920938463463374607431768211456
    ensures Pow(52, 22) < Pow(256, 16) < Pow(52, 23)
  {
    assert Pow(256, 2) == 256 * Pow(256, 1) == 65536;
    PowAdd(256, 2, 2); PowAdd(256, 4, 4); PowAdd(256, 8, 8);
    assert Pow(52, 2) == 52 * Pow(52, 1) == 2704;
    PowAdd(52, 2, 2); PowAdd(52, 4, 4); PowAdd(52, 8, 8);
    PowAdd(52, 16, 4); PowAdd(52, 20, 2);
  }

  /** 128 random bits always fit 23 symbols, and 23 is the least such bound. */
  lemma KeyLength(data: seq<Byte>)
    requires |data| == 16
    ensures 1 <= |Text(FromBytes(data))| <= 23
    ensures Pow(256, 16) >= 1 && |Text(Pow(256, 16) - 1)| == 23
  {
    PowerConstants();
    FromBytesBound(data);
    TextLength(FromBytes(data), 23);
    TextLength(Pow(256, 16) - 1, 23);
    TextLength(Pow(256, 16) - 1, 22);
  }
}
