/** UTF-8 decoding that drops malformed bytes, chunk by chunk and all at once
    (bytes.decode(errors="ignore") as llm_router._parse_stream_usage applies it to each chunk). */
module Utf8 {

  type Byte = b: int | 0 <= b < 256

  predicate Continuation(b: Byte) { 0x80 <= b <= 0xBF }

  /** Length of the well-formed UTF-8 sequence at the head of data, 0 if there is none. */
  function SequenceLength(data: seq<Byte>): nat {
    if data == [] then 0
    else
      var b := data[0];
      if b < 0x80 then 1
      else if 0xC2 <= b <= 0xDF && |data| >= 2 && Continuation(data[1]) then 2
      else if 0xE0 <= b <= 0xEF && |data| >= 3 && Continuation(data[1]) && Continuation(data[2])
              && (b == 0xE0 ==> data[1] >= 0xA0) && (b == 0xED ==> data[1] <= 0x9F) then 3
      else if 0xF0 <= b <= 0xF4 && |data| >= 4 && Continuation(data[1]) && Continuation(data[2])
        && Continuation(data[3])
              && (b == 0xF0 ==> data[1] >= 0x90) && (b == 0xF4 ==> data[1] <= 0x8F) then 4
      else 0
  }

  function Scalar(data: seq<Byte>): char
    requires SequenceLength(data) > 0
  {
    var n := SequenceLength(data);
    if n == 1 then data[0] as char
    else if n == 2 then (Bits(data[0], 0xC0) * 0x40 + Bits(data[1], 0x80)) as char
    else if n == 3 then (Bits(data[0], 0xE0) * 0x1000 + Bits(data[1], 0x80) * 0x40 + Bits(data[2], 0x80)) as char
    else (Bits(data[0], 0xF0) * 0x40000 + Bits(data[1], 0x80) * 0x1000 + Bits(data[2], 0x80) * 0x40
          + Bits(data[3], 0x80)) as char
  }

  /** The payload bits of a byte, its marker removed. */
  function Bits(b: Byte, marker: int): int { b - marker }

  /** bytes.decode(errors="ignore"): malformed bytes are dropped. */
  function Decode(data: seq<Byte>): string
    decreases |data|
  {
    if data == [] then ""
    else if SequenceLength(data) == 0 then Decode(data[1..])
    else [Scalar(data)] + Decode(data[SequenceLength(data)..])
  }

  function DecodeAll(chunks: seq<seq<Byte>>): string {
    if chunks == [] then "" else Decode(chunks[0]) + DecodeAll(chunks[1..])
  }

  function Concat(chunks: seq<seq<Byte>>): seq<Byte> {
    if chunks == [] then [] else chunks[0] + Concat(chunks[1..])
  }

  lemma {:induction false} DecodeAllAppend(chunks: seq<seq<Byte>>, c: seq<Byte>)
    ensures DecodeAll(chunks + [c]) == DecodeAll(chunks) + Decode(c)
  {
    if chunks == [] {
      assert chunks + [c] == [c];
      assert [c][1..] == [];
    } else {
      assert (chunks + [c])[1..] == chunks[1..] + [c];
      DecodeAllAppend(chunks[1..], c);
    }
  }

  lemma ConcatAssoc(a: string, b: string, c: string)
    ensures (a + b) + c == a + (b + c)
  {
  }

  // ---------------------------------------------------------------- decoding inverts encoding

  /** The UTF-8 bytes of a character (section 3 of RFC 3629). */
  function EncodeChar(c: char): (bytes: seq<Byte>)
    ensures 1 <= |bytes| <= 4
  {
    var n := c as int;
    if n < 0x80 then [n]
    else if n < 0x800 then [0xC0 + n / 0x40, 0x80 + n % 0x40]
    else if n < 0x10000 then [0xE0 + n / 0x1000, 0x80 + n / 0x40 % 0x40, 0x80 + n % 0x40]
    else [0xF0 + n / 0x40000, 0x80 + n / 0x1000 % 0x40, 0x80 + n / 0x40 % 0x40, 0x80 + n % 0x40]
  }

  function Encode(text: string): seq<Byte> {
    if text == "" then [] else EncodeChar(text[0]) + Encode(text[1..])
  }

  lemma EncodedHead(c: char, data: seq<Byte>)
    requires EncodeChar(c) <= data
    ensures SequenceLength(data) == |EncodeChar(c)| && Scalar(data) == c
  {
    var e := EncodeChar(c);
    assert forall i :: 0 <= i < |e| ==> data[i] == e[i];
    Digits(c as int);
  }

  /** The base-64 digits of a code point. */
  lemma Digits(n: int)
    requires 0 <= n <= 0x10FFFF
    ensures n == n / 0x40 * 0x40 + n % 0x40
    ensures n == n / 0x1000 * 0x1000 + n / 0x40 % 0x40 * 0x40 + n % 0x40
    ensures n == n / 0x40000 * 0x40000 + n / 0x1000 % 0x40 * 0x1000 + n / 0x40 % 0x40 * 0x40 + n % 0x40
  {
    assert n / 0x40 / 0x40 == n / 0x1000 && n / 0x1000 / 0x40 == n / 0x40000;
  }

  lemma HeadIsEncoded(data: seq<Byte>)
    requires SequenceLength(data) > 0
    ensures EncodeChar(Scalar(data)) <= data
  {
    match SequenceLength(data)
    case 1 =>
    case 2 => TwoBytes(data, Scalar(data) as int);
    case 3 => ThreeBytes(data, Scalar(data) as int);
    case _ => FourBytes(data, Scalar(data) as int);
  }

  lemma TwoBytes(data: seq<Byte>, n: int)
    requires SequenceLength(data) == 2 && n == Scalar(data) as int
    ensures 0x80 <= n < 0x800 && 0xC0 + n / 0x40 == data[0] && 0x80 + n % 0x40 == data[1]
  {
  }

  lemma ThreeBytes(data: seq<Byte>, n: int)
    requires SequenceLength(data) == 3 && n == Scalar(data) as int
    ensures 0x800 <= n < 0x10000
    ensures 0xE0 + n / 0x1000 == data[0] && 0x80 + n / 0x40 % 0x40 == data[1] && 0x80 + n % 0x40 == data[2]
  {
    var a: int, b: int, c: int := data[0] - 0xE0, data[1] - 0x80, data[2] - 0x80;
    assert n == (a * 0x40 + b) * 0x40 + c;
    assert n / 0x40 == a * 0x40 + b;
  }

  lemma FourBytes(data: seq<Byte>, n: int)
    requires SequenceLength(data) == 4 && n == Scalar(data) as int
    ensures 0x10000 <= n
    ensures 0xF0 + n / 0x40000 == data[0] && 0x80 + n / 0x1000 % 0x40 == data[1]
    ensures 0x80 + n / 0x40 % 0x40 == data[2] && 0x80 + n % 0x40 == data[3]
  {
    var a: int, b: int, c: int, d: int := data[0] - 0xF0, data[1] - 0x80, data[2] - 0x80, data[3] - 0x80;
    assert n == ((a * 0x40 + b) * 0x40 + c) * 0x40 + d;
    assert n / 0x40 == (a * 0x40 + b) * 0x40 + c;
    assert n / 0x1000 == a * 0x40 + b;
  }

  /** Decoding without its tables: a character whose encoding heads the data is taken, and a byte at which no
      character's encoding begins is dropped. */
  lemma DecodesExactly(data: seq<Byte>)
    requires data != []
    ensures forall c :: EncodeChar(c) <= data ==> Decode(data) == [c] + Decode(data[|EncodeChar(c)|..])
    ensures (forall c :: !(EncodeChar(c) <= data)) ==> Decode(data) == Decode(data[1..])
  {
    forall c | EncodeChar(c) <= data ensures Decode(data) == [c] + Decode(data[|EncodeChar(c)|..]) {
      EncodedHead(c, data);
    }
    if SequenceLength(data) > 0 { HeadIsEncoded(data); }
  }

  /** So decoding gives back every text from its encoding. */
  lemma {:induction false} DecodeInvertsEncode(text: string)
    ensures Decode(Encode(text)) == text
  {
    if text != "" {
      var e, data := EncodeChar(text[0]), Encode(text);
      DecodeInvertsEncode(text[1..]);
      assert e <= data && data[|e|..] == Encode(text[1..]);
      EncodedHead(text[0], data);
    }
  }

  // ---------------------------------------------------------------- chunk boundaries

  /** How far the decoder moves at the head of data: over a character, or over one malformed byte. */
  function Stride(data: seq<Byte>): (n: nat)
    ensures data != [] ==> 1 <= n <= |data|
  {
    if data == [] then 0 else if SequenceLength(data) == 0 then 1 else SequenceLength(data)
  }

  /** A walk over data that moves by stride stops at offset n. */
  predicate StopsBy(stride: seq<Byte> -> nat, data: seq<Byte>, n: nat)
    decreases n
  {
    n == 0 || (0 < stride(data) <= |data| && stride(data) <= n
               && StopsBy(stride, data[stride(data)..], n - stride(data)))
  }

  /** The decoder's walk over data stops at offset n, so a cut there splits no character. */
  predicate StopsAt(data: seq<Byte>, n: nat) { StopsBy(Stride, data, n) }

  lemma TailOfAppend(a: seq<Byte>, b: seq<Byte>, n: nat, whole: seq<Byte>)
    requires n <= |a| && whole == a + b
    ensures whole[n..] == a[n..] + b
  {
  }

  lemma DropMalformed(data: seq<Byte>, rest: seq<Byte>)
    requires data != [] && SequenceLength(data) == 0 && rest == data[1..]
    ensures Decode(data) == Decode(rest)
  {
  }

  lemma TakeCharacter(data: seq<Byte>, n: nat, rest: seq<Byte>)
    requires data != [] && n == SequenceLength(data) > 0 && rest == data[n..]
    ensures Decode(data) == [Scalar(data)] + Decode(rest)
  {
  }

  /** A head that lies in a prefix is the head of that prefix, and the other way round. */
  lemma SameHead(a: seq<Byte>, b: seq<Byte>)
    requires a != []
    ensures Stride(a + b) <= |a| ==> SequenceLength(a + b) == SequenceLength(a)
    ensures SequenceLength(a) > 0 ==> SequenceLength(a + b) == SequenceLength(a)
  {
  }

  lemma ContinuationTail(w: seq<Byte>, i: nat)
    requires 1 <= i < SequenceLength(w)
    ensures Continuation(w[i])
  {
  }

  lemma {:induction false} DropContinuations(c: seq<Byte>, rest: seq<Byte>, whole: seq<Byte>)
    requires whole == c + rest && forall i :: 0 <= i < |c| ==> Continuation(c[i])
    ensures Decode(whole) == Decode(rest)
  {
    if c == [] {
      assert whole == rest;
    } else {
      assert whole[1..] == c[1..] + rest && whole[0] == c[0];
      DropContinuations(c[1..], rest, whole[1..]);
      DropMalformed(whole, whole[1..]);
    }
  }

  /** Decoding whole gives the head's decoding and more, or one character beyond that. */
  predicate Appends(whole: string, head: string, more: string, exact: bool) {
    (exact ==> whole == head + more) && |whole| == |head| + |more| + if exact then 0 else 1
  }

  lemma StopsStep(data: seq<Byte>, n: nat, rest: seq<Byte>)
    requires data != [] && Stride(data) <= n && rest == data[Stride(data)..]
    ensures StopsAt(data, n) <==> StopsAt(rest, n - Stride(data))
  {
  }

  lemma PrependsTo(c: char, whole: string, head: string, more: string, exact: bool)
    requires Appends(whole, head, more, exact)
    ensures Appends([c] + whole, [c] + head, more, exact)
  {
    ConcatAssoc([c], head, more);
  }

  /** A cut inside a character: neither side decodes any of it. */
  lemma CutCharacter(a: seq<Byte>, b: seq<Byte>, whole: seq<Byte>, m: nat)
    requires a != [] && whole == a + b && m == Stride(whole) > |a|
    ensures !StopsAt(whole, |a|) && Decode(a) == "" && |Decode(whole)| == 1 + |Decode(b)|
  {
    NoStopInside(whole, |a|);
    HeadDropped(a, b, whole, m);
    OneCharacter(a, b, whole, m);
  }

  lemma HeadDropped(a: seq<Byte>, b: seq<Byte>, whole: seq<Byte>, m: nat)
    requires a != [] && whole == a + b && m == Stride(whole) > |a|
    ensures Decode(a) == ""
  {
    CutShape(a, b, whole, m);
    LoneHead(a);
  }

  lemma OneCharacter(a: seq<Byte>, b: seq<Byte>, whole: seq<Byte>, m: nat)
    requires a != [] && whole == a + b && m == Stride(whole) > |a|
    ensures |Decode(whole)| == 1 + |Decode(b)|
  {
    CutShape(a, b, whole, m);
    TailDropped(b, m - |a|);
    TakeCharacter(whole, m, b[m - |a|..]);
  }

  lemma NoStopInside(data: seq<Byte>, n: nat)
    requires data != [] && 0 < n < Stride(data)
    ensures !StopsAt(data, n)
  {
  }

  lemma CutShape(a: seq<Byte>, b: seq<Byte>, whole: seq<Byte>, m: nat)
    requires a != [] && whole == a + b && m == Stride(whole) > |a|
    ensures SequenceLength(a) == 0 && m == SequenceLength(whole) && m - |a| <= |b| && whole[m..] == b[m - |a|..]
    ensures forall i :: 1 <= i < |a| ==> Continuation(a[i])
    ensures forall i :: 0 <= i < m - |a| ==> Continuation(b[i])
  {
    SameHead(a, b);
    forall i | 1 <= i < m ensures Continuation(whole[i]) { ContinuationTail(whole, i); }
    forall i | 1 <= i < |a| ensures Continuation(a[i]) { assert a[i] == whole[i]; }
    forall i | 0 <= i < m - |a| ensures Continuation(b[i]) { assert b[i] == whole[|a| + i]; }
  }

  lemma TailDropped(b: seq<Byte>, n: nat)
    requires n <= |b| && forall i :: 0 <= i < n ==> Continuation(b[i])
    ensures Decode(b) == Decode(b[n..])
  {
    assert b == b[..n] + b[n..];
    DropContinuations(b[..n], b[n..], b);
  }

  lemma LoneHead(a: seq<Byte>)
    requires a != [] && SequenceLength(a) == 0 && forall i :: 1 <= i < |a| ==> Continuation(a[i])
    ensures Decode(a) == ""
  {
    DropMalformed(a, a[1..]);
    assert a[1..] + [] == a[1..];
    DropContinuations(a[1..], [], a[1..]);
  }

  lemma {:induction false} DecodeAppends(a: seq<Byte>, b: seq<Byte>)
    ensures Appends(Decode(a + b), Decode(a), Decode(b), StopsAt(a + b, |a|))
    decreases |a|
  {
    if a == [] {
      assert a + b == b;
    } else {
      SameHead(a, b);
      var m := Stride(a + b);
      if m <= |a| {
        DecodeAppends(a[m..], b);
        TailOfAppend(a, b, m, a + b);
        MoveOn(a, a + b, m, a[m..], a[m..] + b, Decode(b));
      } else {
        CutCharacter(a, b, a + b, m);
      }
    }
  }

  lemma MoveOn(a: seq<Byte>, whole: seq<Byte>, m: nat, rest: seq<Byte>, wholeRest: seq<Byte>, more: string)
    requires a != [] && a <= whole && m == Stride(whole) <= |a| && SequenceLength(whole) == SequenceLength(a)
    requires rest == a[m..] && wholeRest == whole[m..]
    requires Appends(Decode(wholeRest), Decode(rest), more, StopsAt(wholeRest, |a| - m))
    ensures Appends(Decode(whole), Decode(a), more, StopsAt(whole, |a|))
  {
    StopsStep(whole, |a|, wholeRest);
    if SequenceLength(a) == 0 {
      DropMalformed(a, rest);
      DropMalformed(whole, wholeRest);
    } else {
      assert Scalar(whole) == Scalar(a) by { PrefixScalar(a, whole); }
      TakeCharacter(a, m, rest);
      TakeCharacter(whole, m, wholeRest);
      PrependsTo(Scalar(a), Decode(wholeRest), Decode(rest), more, StopsAt(wholeRest, |a| - m));
    }
  }

  lemma PrefixScalar(a: seq<Byte>, whole: seq<Byte>)
    requires a <= whole && SequenceLength(a) > 0 && SequenceLength(whole) == SequenceLength(a)
    ensures Scalar(whole) == Scalar(a)
  {
  }

  /** Exactly when decoding two pieces is decoding their concatenation: when the walk over the whole stops
      at the cut. Otherwise precisely one character is lost. */
  lemma {:induction false} DecodeAppend(a: seq<Byte>, b: seq<Byte>)
    ensures Decode(a + b) == Decode(a) + Decode(b) <==> StopsAt(a + b, |a|)
    ensures |Decode(a + b)| == |Decode(a)| + |Decode(b)| + if StopsAt(a + b, |a|) then 0 else 1
  {
    DecodeAppends(a, b);
  }

  // ---------------------------------------------------------------- whole streams

  /** Each cut falls where the walk over what follows the cut before it stops. */
  predicate CutsAtStops(chunks: seq<seq<Byte>>) {
    chunks == [] || (StopsAt(Concat(chunks), |chunks[0]|) && CutsAtStops(chunks[1..]))
  }

  lemma {:induction false} WalksCompose(stride: seq<Byte> -> nat, data: seq<Byte>, n: nat, k: nat, tail: seq<Byte>)
    requires n + k <= |data| && StopsBy(stride, data, n) && tail == data[n..]
    ensures StopsBy(stride, data, n + k) <==> StopsBy(stride, tail, k)
    decreases n
  {
    if n == 0 {
      assert data[0..] == data;
    } else {
      var m := stride(data);
      DropDrop(data, m, n);
      WalksCompose(stride, data[m..], n - m, k, tail);
    }
  }

  lemma StopsCompose(data: seq<Byte>, n: nat, k: nat, tail: seq<Byte>)
    requires n + k <= |data| && StopsAt(data, n) && tail == data[n..]
    ensures StopsAt(data, n + k) <==> StopsAt(tail, k)
  {
    WalksCompose(Stride, data, n, k, tail);
  }

  lemma DropDrop(data: seq<Byte>, m: nat, n: nat)
    requires m <= n <= |data|
    ensures data[m..][n - m..] == data[n..]
  {
  }

  /** The offset of cut i in the stream. */
  function Offset(chunks: seq<seq<Byte>>, i: nat): nat
    requires i <= |chunks|
  {
    if i == 0 then 0 else |chunks[0]| + Offset(chunks[1..], i - 1)
  }

  lemma {:induction false} OffsetBound(chunks: seq<seq<Byte>>, i: nat)
    requires i <= |chunks|
    ensures Offset(chunks, i) <= |Concat(chunks)|
  {
    if i > 0 { OffsetBound(chunks[1..], i - 1); }
  }

  /** Every cut of chunks falls where the walk over data stops. */
  predicate AllStops(data: seq<Byte>, chunks: seq<seq<Byte>>) {
    forall i :: 0 <= i <= |chunks| ==> StopsAt(data, Offset(chunks, i))
  }

  /** Equivalently, every cut falls where the walk over the whole stream stops. */
  lemma {:induction false} CutsAreStops(chunks: seq<seq<Byte>>)
    ensures CutsAtStops(chunks) <==> AllStops(Concat(chunks), chunks)
  {
    if chunks != [] {
      CutsAreStops(chunks[1..]);
      assert Offset(chunks, 1) == |chunks[0]|;
      if StopsAt(Concat(chunks), |chunks[0]|) { LaterStops(chunks, Concat(chunks), Concat(chunks[1..])); }
    }
  }

  lemma BeyondHead(a: seq<Byte>, b: seq<Byte>, whole: seq<Byte>)
    requires whole == a + b
    ensures whole[|a|..] == b && |whole| == |a| + |b|
  {
  }

  lemma LaterStops(chunks: seq<seq<Byte>>, whole: seq<Byte>, rest: seq<Byte>)
    requires chunks != [] && rest == Concat(chunks[1..]) && whole == chunks[0] + rest && StopsAt(whole, |chunks[0]|)
    ensures AllStops(whole, chunks) <==> AllStops(rest, chunks[1..])
  {
    BeyondHead(chunks[0], rest, whole);
    forall i | 0 <= i <= |chunks[1..]|
      ensures StopsAt(whole, Offset(chunks, i + 1)) <==> StopsAt(rest, Offset(chunks[1..], i))
    {
      OffsetBound(chunks[1..], i);
      StopsCompose(whole, |chunks[0]|, Offset(chunks[1..], i), rest);
    }
    if AllStops(rest, chunks[1..]) {
      forall i | 0 <= i <= |chunks| ensures StopsAt(whole, Offset(chunks, i)) {
        if i > 0 { assert StopsAt(rest, Offset(chunks[1..], i - 1)); }
      }
    }
    if AllStops(whole, chunks) {
      forall i | 0 <= i <= |chunks[1..]|
        ensures StopsAt(rest, Offset(chunks[1..], i))
      {
        assert StopsAt(whole, Offset(chunks, i + 1));
      }
    }
  }

  /** The characters that fall into a cut. */
  function Lost(chunks: seq<seq<Byte>>): nat {
    if chunks == [] then 0 else (if StopsAt(Concat(chunks), |chunks[0]|) then 0 else 1) + Lost(chunks[1..])
  }

  lemma {:induction false} NothingLost(chunks: seq<seq<Byte>>)
    ensures Lost(chunks) == 0 <==> CutsAtStops(chunks)
  {
    if chunks != [] { NothingLost(chunks[1..]); }
  }

  /** Exactly when decoding chunk by chunk is decoding the stream, and how many characters are lost
      otherwise. */
  lemma {:induction false} DecodeChunks(chunks: seq<seq<Byte>>)
    ensures DecodeAll(chunks) == Decode(Concat(chunks)) <==> CutsAtStops(chunks)
    ensures |Decode(Concat(chunks))| == |DecodeAll(chunks)| + Lost(chunks)
  {
    NothingLost(chunks);
    if chunks != [] {
      DecodeChunks(chunks[1..]);
      DecodeAppend(chunks[0], Concat(chunks[1..]));
    }
  }

  /** In particular no character is split when no chunk begins with a continuation byte. */
  lemma {:induction false} PlainCuts(chunks: seq<seq<Byte>>)
    requires forall i :: 0 <= i < |chunks| && chunks[i] != [] ==> !Continuation(chunks[i][0])
    ensures CutsAtStops(chunks)
    ensures Concat(chunks) != [] ==> !Continuation(Concat(chunks)[0])
  {
    if chunks != [] {
      assert chunks[0] != [] ==> !Continuation(chunks[0][0]);
      PlainCuts(chunks[1..]);
      PlainCut(chunks[0], Concat(chunks[1..]));
    }
  }

  lemma {:induction false} PlainCut(a: seq<Byte>, b: seq<Byte>)
    requires b != [] ==> !Continuation(b[0])
    ensures StopsAt(a + b, |a|)
    decreases |a|
  {
    if a != [] {
      var whole := a + b;
      var m := Stride(whole);
      assert b != [] ==> whole[|a|] == b[0];
      if m > |a| {
        ContinuationTail(whole, |a|);
        assert false;
      }
      TailOfAppend(a, b, m, whole);
      PlainCut(a[m..], b);
    }
  }

  /** An ASCII stream may be cut anywhere. */
  lemma {:induction false} AsciiCutsAnywhere(chunks: seq<seq<Byte>>)
    requires forall i :: 0 <= i < |Concat(chunks)| ==> Concat(chunks)[i] < 0x80
    ensures CutsAtStops(chunks)
  {
    if chunks != [] {
      var rest := Concat(chunks[1..]);
      forall i | 0 <= i < |rest| ensures rest[i] < 0x80 {
        assert Concat(chunks)[|chunks[0]| + i] == rest[i];
      }
      AsciiCutsAnywhere(chunks[1..]);
      if rest != [] { assert rest[0] < 0x80; }
      PlainCut(chunks[0], rest);
    }
  }

  // ---------------------------------------------------------------- ASCII text

  function Bytes(text: string): seq<Byte>
    requires forall i :: 0 <= i < |text| ==> text[i] < 0x80 as char
  {
    seq(|text|, i requires 0 <= i < |text| => text[i] as int)
  }

  lemma AsciiHead(text: string, rest: seq<Byte>, data: seq<Byte>, more: seq<Byte>)
    requires text != "" && forall i :: 0 <= i < |text| ==> text[i] < 0x80 as char
    requires data == Bytes(text) + rest && more == Bytes(text[1..]) + rest
    ensures Decode(data) == [text[0]] + Decode(more)
  {
    assert data[1..] == more && data[0] == text[0] as int;
    TakeCharacter(data, 1, more);
  }

  lemma {:induction false} DecodeAscii(text: string, rest: seq<Byte>)
    requires forall i :: 0 <= i < |text| ==> text[i] < 0x80 as char
    ensures Decode(Bytes(text) + rest) == text + Decode(rest)
  {
    if text == "" {
      assert Bytes(text) + rest == rest;
    } else {
      DecodeAscii(text[1..], rest);
      AsciiHead(text, rest, Bytes(text) + rest, Bytes(text[1..]) + rest);
      ConcatAssoc([text[0]], text[1..], Decode(rest));
      assert text == [text[0]] + text[1..];
    }
  }
}
