/**
 UTF-8 text bounded in bytes: prefixes, tails and shortened excerpts that never
 split a character (section 3 of RFC 3629).

 Text is a sequence of code points.  A lone surrogate encodes as `?`, and the
 decoder skips every byte that starts no complete sequence.
 */
module Utf8 {
  import opened Common

  type CodePoint = c: int | 0 <= c < 0x110000

  type Byte = b: int | 0 <= b < 256

  type Text = seq<CodePoint>

  const QUESTION_MARK: CodePoint := 0x3F

  predicate Surrogate(c: CodePoint) {
    0xD800 <= c < 0xE000
  }

  // ------------------------------------------------------------------- encoding

  /** The bytes of one code point. */
  function EncodeOne(c: CodePoint): (bs: seq<Byte>)
    ensures 1 <= |bs| <= 4
  {
    if Surrogate(c) then [QUESTION_MARK]
    else if c < 0x80 then [c]
    else if c < 0x800 then [0xC0 + c / 0x40, 0x80 + c % 0x40]
    else if c < 0x1_0000 then [0xE0 + c / 0x1000, 0x80 + c / 0x40 % 0x40, 0x80 + c % 0x40]
    else [0xF0 + c / 0x4_0000, 0x80 + c / 0x1000 % 0x40, 0x80 + c / 0x40 % 0x40, 0x80 + c % 0x40]
  }

  function Encode(t: Text): seq<Byte> {
    if t == [] then [] else EncodeOne(t[0]) + Encode(t[1..])
  }

  /** What encoding and decoding make of a text: its lone surrogates become `?`. */
  function Replaced(t: Text): (r: Text)
    ensures |r| == |t| && forall i :: 0 <= i < |t| ==> r[i] == if Surrogate(t[i]) then QUESTION_MARK else t[i]
  {
    seq(|t|, i requires 0 <= i < |t| => if Surrogate(t[i]) then QUESTION_MARK else t[i])
  }

  // ------------------------------------------------------------------- decoding

  predicate Continuation(b: Byte) {
    0x80 <= b < 0xC0
  }

  /** Six bits of a continuation byte. */
  function Low(b: Byte): int {
    (b as int) - 0x80
  }

  /** The code point a complete, shortest-form sequence at the start of `bs` stands for, with its length. */
  function DecodeOne(bs: seq<Byte>): Option<(CodePoint, nat)> {
    if bs == [] then None
    else
      var lead: int := bs[0];
      if lead < 0x80 then Some((lead, 1))
      else if 0xC2 <= lead < 0xE0 then
        if |bs| >= 2 && Continuation(bs[1]) then Some(((lead - 0xC0) * 0x40 + Low(bs[1]), 2)) else None
      else if 0xE0 <= lead < 0xF0 then
        if |bs| >= 3 && Continuation(bs[1]) && Continuation(bs[2]) then
          var c := (lead - 0xE0) * 0x1000 + Low(bs[1]) * 0x40 + Low(bs[2]);
          if c < 0x800 || 0xD800 <= c < 0xE000 then None else Some((c, 3))
        else None
      else if 0xF0 <= lead < 0xF5 then
        if |bs| >= 4 && Continuation(bs[1]) && Continuation(bs[2]) && Continuation(bs[3]) then
          var c := (lead - 0xF0) * 0x4_0000 + Low(bs[1]) * 0x1000 + Low(bs[2]) * 0x40 + Low(bs[3]);
          if c < 0x1_0000 || c >= 0x11_0000 then None else Some((c, 4))
        else None
      else None
  }

  /** Decoding that ignores what it cannot decode. */
  function DecodeIgnoring(bs: seq<Byte>): Text
    decreases |bs|
  {
    if bs == [] then []
    else
      match DecodeOne(bs)
      case Some((c, n)) => if n <= |bs| then [c] + DecodeIgnoring(bs[n..]) else []
      case None => DecodeIgnoring(bs[1..])
  }

  /** The bits a code point is split into, put together again. */
  lemma SplitBits(c: CodePoint)
    ensures c == c / 0x40 * 0x40 + c % 0x40
    ensures c / 0x40 == c / 0x1000 * 0x40 + c / 0x40 % 0x40
    ensures c / 0x1000 == c / 0x4_0000 * 0x40 + c / 0x1000 % 0x40
  {
  }

  lemma DecodeOneAfterEncode(c: CodePoint, bs: seq<Byte>)
    requires EncodeOne(c) <= bs
    ensures DecodeOne(bs) == Some((Replaced([c])[0], |EncodeOne(c)|))
  {
    SplitBits(c);
    var one := EncodeOne(c);
    assert forall i :: 0 <= i < |one| ==> bs[i] == one[i];
    if Surrogate(c) {
    } else if c < 0x80 {
    } else if c < 0x800 {
      assert 0xC2 <= bs[0] < 0xE0 && Low(bs[1]) == c % 0x40;
    } else if c < 0x1_0000 {
      assert 0xE0 <= bs[0] < 0xF0 && Low(bs[1]) == c / 0x40 % 0x40 && Low(bs[2]) == c % 0x40;
    } else {
      assert 0xF0 <= bs[0] < 0xF5 && Low(bs[1]) == c / 0x1000 % 0x40 && Low(bs[2]) == c / 0x40 % 0x40
          && Low(bs[3]) == c % 0x40;
    }
  }

  /** One encoded character is decoded whole, whatever follows. */
  lemma DecodesOne(c: CodePoint, rest: seq<Byte>)
    ensures DecodeIgnoring(EncodeOne(c) + rest) == Replaced([c]) + DecodeIgnoring(rest)
  {
    var bs := EncodeOne(c) + rest;
    DecodeOneAfterEncode(c, bs);
    assert bs[|EncodeOne(c)|..] == rest;
    assert Replaced([c]) == [Replaced([c])[0]];
  }

  /** A character cut short at the end of the bytes is dropped. */
  lemma DropsCutCharacter(c: CodePoint, n: nat)
    requires n < |EncodeOne(c)|
    ensures DecodeIgnoring(EncodeOne(c)[..n]) == []
  {
    if n > 0 {
      var cut := EncodeOne(c)[..n];
      assert DecodeOne(cut).None?;
      SkipsContinuations(cut[1..], []);
      assert cut[1..] + [] == cut[1..];
    }
  }

  /** Leading continuation bytes are skipped one by one. */
  lemma {:induction false} SkipsContinuations(tail: seq<Byte>, rest: seq<Byte>)
    requires forall i :: 0 <= i < |tail| ==> Continuation(tail[i])
    ensures DecodeIgnoring(tail + rest) == DecodeIgnoring(rest)
  {
    if tail == [] {
      assert tail + rest == rest;
    } else {
      assert DecodeOne(tail + rest).None?;
      assert (tail + rest)[1..] == tail[1..] + rest;
      SkipsContinuations(tail[1..], rest);
    }
  }

  /** Decoding inverts encoding, up to the replaced surrogates. */
  lemma {:induction false} DecodeInvertsEncode(t: Text)
    ensures DecodeIgnoring(Encode(t)) == Replaced(t)
  {
    if t != [] {
      DecodesOne(t[0], Encode(t[1..]));
      DecodeInvertsEncode(t[1..]);
      assert Replaced(t) == Replaced([t[0]]) + Replaced(t[1..]);
    }
  }

  lemma Regroup(a: seq<Byte>, b: seq<Byte>, c: seq<Byte>)
    ensures a + (b + c) == a + b + c
  {
  }

  lemma {:induction false} EncodeAppends(s: Text, t: Text)
    ensures Encode(s + t) == Encode(s) + Encode(t)
  {
    if s == [] {
      assert s + t == t;
    } else {
      EncodeAppends(s[1..], t);
      var whole := s + t;
      assert whole[0] == s[0] && whole[1..] == s[1..] + t;
      Regroup(EncodeOne(s[0]), Encode(s[1..]), Encode(t));
    }
  }

  lemma PrefixesAreShorter(t: Text, n: nat)
    requires n <= |t|
    ensures |Encode(t[..n])| <= |Encode(t)|
  {
    EncodeAppends(t[..n], t[n..]);
    assert t == t[..n] + t[n..];
  }

  lemma {:induction false} ReplacementKeepsBytes(t: Text)
    ensures Encode(Replaced(t)) == Encode(t)
  {
    if t != [] {
      assert Replaced(t)[1..] == Replaced(t[1..]);
      ReplacementKeepsBytes(t[1..]);
    }
  }

  // ----------------------------------------------------- cutting between characters

  /** How many whole characters of `t` fit in `limit` bytes. */
  function Fitting(t: Text, limit: nat): (n: nat)
    ensures n <= |t|
  {
    if t == [] || |EncodeOne(t[0])| > limit then 0 else 1 + Fitting(t[1..], limit - |EncodeOne(t[0])|)
  }

  /** `Fitting` is the longest prefix within the limit. */
  lemma {:induction false} FittingIsLongest(t: Text, limit: nat)
    ensures var n := Fitting(t, limit);
            && |Encode(t[..n])| <= limit
            && (n < |t| ==> |Encode(t[..n + 1])| > limit)
  {
    var n := Fitting(t, limit);
    if n == 0 {
      if t != [] {
        assert t[..1][1..] == [];
        assert Encode(t[..1]) == EncodeOne(t[0]) + Encode([]);
      }
    } else {
      FittingIsLongest(t[1..], limit - |EncodeOne(t[0])|);
      assert t[..n][1..] == t[1..][..n - 1];
      if n < |t| {
        assert t[..n + 1][1..] == t[1..][..n];
      }
    }
  }

  /** Cutting the bytes anywhere and decoding gives exactly the whole characters that fit. */
  lemma {:induction false} CutPrefix(t: Text, limit: nat)
    requires limit <= |Encode(t)|
    ensures DecodeIgnoring(Encode(t)[..limit]) == Replaced(t[..Fitting(t, limit)])
  {
    if t != [] {
      var one := EncodeOne(t[0]);
      if |one| > limit {
        assert Encode(t)[..limit] == one[..limit];
        DropsCutCharacter(t[0], limit);
      } else {
        var n := Fitting(t[1..], limit - |one|);
        assert Encode(t)[..limit] == one + Encode(t[1..])[..limit - |one|];
        DecodesOne(t[0], Encode(t[1..])[..limit - |one|]);
        CutPrefix(t[1..], limit - |one|);
        assert Replaced(t[..n + 1]) == Replaced([t[0]]) + Replaced(t[1..][..n]);
      }
    }
  }

  /** The first character that starts at or after byte `from`. */
  function FirstWhole(t: Text, from: nat): (k: nat)
    ensures k <= |t|
  {
    if t == [] || from == 0 then 0
    else if from <= |EncodeOne(t[0])| then 1
    else 1 + FirstWhole(t[1..], from - |EncodeOne(t[0])|)
  }

  /** No earlier character starts at or after `from`. */
  lemma {:induction false} FirstWholeIsFirst(t: Text, from: nat)
    requires from <= |Encode(t)|
    ensures var k := FirstWhole(t, from);
            && |Encode(t[k..])| <= |Encode(t)| - from
            && (k > 0 ==> |Encode(t[k - 1..])| > |Encode(t)| - from)
  {
    var k := FirstWhole(t, from);
    if t != [] && from > 0 {
      assert t[0..] == t;
      if from > |EncodeOne(t[0])| {
        FirstWholeIsFirst(t[1..], from - |EncodeOne(t[0])|);
        assert t[k..] == t[1..][k - 1..];
        if k > 1 {
          assert t[k - 1..] == t[1..][k - 2..];
        }
        assert FirstWhole(t[1..], from - |EncodeOne(t[0])|) > 0;
      }
    } else {
      assert t[0..] == t;
    }
  }

  /** Dropping the first bytes anywhere and decoding gives exactly the whole characters that remain. */
  lemma {:induction false} CutSuffix(t: Text, from: nat)
    requires from <= |Encode(t)|
    ensures DecodeIgnoring(Encode(t)[from..]) == Replaced(t[FirstWhole(t, from)..])
  {
    if t == [] || from == 0 {
      assert Encode(t)[0..] == Encode(t) && t[0..] == t;
      DecodeInvertsEncode(t);
    } else {
      var one := EncodeOne(t[0]);
      var rest := Encode(t[1..]);
      if from <= |one| {
        assert Encode(t)[from..] == one[from..] + rest;
        SkipsContinuations(one[from..], rest);
        DecodeInvertsEncode(t[1..]);
      } else {
        assert Encode(t)[from..] == rest[from - |one|..];
        CutSuffix(t[1..], from - |one|);
        assert t[FirstWhole(t, from)..] == t[1..][FirstWhole(t, from) - 1..];
      }
    }
  }

  // ------------------------------------------------------- the bounded builders

  ghost predicate PrefixAt(t: Text, limit: int, n: nat, r: Text) {
    && n <= |t| && r == Replaced(t[..n])
    && (n > 0 ==> |Encode(r)| <= limit)
    && (n < |t| ==> |Encode(t[..n + 1])| > limit)
  }

  ghost predicate SuffixAt(t: Text, limit: nat, k: nat, r: Text) {
    && k <= |t| && r == Replaced(t[k..])
    && |Encode(r)| <= limit
    && (k > 0 ==> |Encode(t[k - 1..])| > limit)
  }

  /** The longest prefix of whole characters within `limit` bytes. */
  ghost predicate IsLongestPrefix(t: Text, limit: int, r: Text) {
    exists n :: PrefixAt(t, limit, n, r)
  }

  /** The longest suffix of whole characters within `limit` bytes. */
  ghost predicate IsLongestSuffix(t: Text, limit: nat, r: Text) {
    exists k :: SuffixAt(t, limit, k, r)
  }

  function Utf8Prefix(t: Text, limit: int): (r: Text)
    ensures IsLongestPrefix(t, limit, r)
  {
    if limit <= 0 then
      NothingFits(t, limit);
      []
    else
      PrefixIsLongest(t, limit);
      Head(t, limit)
  }

  /** A slice whose bound may exceed the length. */
  function FirstBytes(bytes: seq<Byte>, limit: nat): seq<Byte> {
    if limit < |bytes| then bytes[..limit] else bytes
  }

  lemma NothingFits(t: Text, limit: int)
    requires limit <= 0
    ensures IsLongestPrefix(t, limit, [])
  {
    if t != [] {
      assert Encode(t[..1]) == EncodeOne(t[0]) + Encode(t[..1][1..]);
    }
    assert PrefixAt(t, limit, 0, []);
  }

  lemma PrefixIsLongest(t: Text, limit: nat)
    ensures IsLongestPrefix(t, limit, Head(t, limit))
  {
    var cut := if limit < |Encode(t)| then limit else |Encode(t)|;
    assert FirstBytes(Encode(t), limit) == Encode(t)[..cut];
    CutPrefix(t, cut);
    FittingIsLongest(t, cut);
    var n := Fitting(t, cut);
    ReplacementKeepsBytes(t[..n]);
    if n < |t| {
      PrefixesAreShorter(t, n + 1);
    }
    assert PrefixAt(t, limit, n, Replaced(t[..n]));
  }

  /** What decoding makes of the first, or the last, bytes of a text. */
  function Head(t: Text, n: nat): Text {
    DecodeIgnoring(FirstBytes(Encode(t), n))
  }

  function Tail(t: Text, n: nat): Text {
    if n < |Encode(t)| then DecodeIgnoring(Encode(t)[|Encode(t)| - n..]) else Replaced(t)
  }

  function BoundedTail(t: Text, maxBytes: nat): (r: Text)
    ensures |Encode(t)| <= maxBytes ==> r == t
    ensures |Encode(t)| > maxBytes ==> IsLongestSuffix(t, maxBytes, r)
  {
    if |Encode(t)| <= maxBytes then t
    else
      TailIsLongest(t, maxBytes);
      if maxBytes == 0 then NothingLeft(t); [] else Tail(t, maxBytes)
  }

  lemma NothingLeft(t: Text)
    requires Encode(t) != []
    ensures Tail(t, 0) == []
  {
    assert Encode(t)[|Encode(t)|..] == [];
  }

  lemma TailIsLongest(t: Text, maxBytes: nat)
    requires maxBytes < |Encode(t)|
    ensures IsLongestSuffix(t, maxBytes, Tail(t, maxBytes)) && |Encode(Tail(t, maxBytes))| <= maxBytes
  {
    var from := |Encode(t)| - maxBytes;
    var k := FirstWhole(t, from);
    assert Tail(t, maxBytes) == Replaced(t[k..]) by {
      CutSuffix(t, from);
    }
    FirstWholeIsFirst(t, from);
    ReplacementKeepsBytes(t[k..]);
    assert SuffixAt(t, maxBytes, k, Replaced(t[k..]));
  }

  ghost predicate HeadAndTail(t: Text, room: nat, head: Text, tail: Text) {
    IsLongestPrefix(t, room / 2, head) && IsLongestSuffix(t, room - room / 2, tail)
  }

  /** A true prefix, the marker and a true suffix, or a true prefix alone; never more than the budget. */
  ghost predicate IsBounded(t: Text, budget: nat, marker: Text, r: Text) {
    && |Encode(r)| <= budget
    && (if |Encode(t)| <= budget then r == t
        else if budget <= |Encode(marker)| then IsLongestPrefix(t, budget, r)
        else exists head, tail :: r == head + marker + tail && HeadAndTail(t, budget - |Encode(marker)|, head, tail))
  }

  /** The excerpt of a failed check: the whole text, or its head and its tail around a marker. */
  function BoundedUtf8(t: Text, budget: nat, marker: Text): (r: Text)
    ensures IsBounded(t, budget, marker, r)
  {
    var markerSize := |Encode(marker)|;
    if |Encode(t)| <= budget then t
    else if budget <= markerSize then
      HeadIsLongest(t, budget);
      Head(t, budget)
    else
      var headSize := (budget - markerSize) / 2;
      var tailSize := budget - markerSize - headSize;
      HeadIsLongest(t, headSize);
      TailIsLongest(t, tailSize);
      Assembled(t, budget, marker, Head(t, headSize), Tail(t, tailSize));
      Head(t, headSize) + marker + Tail(t, tailSize)
  }

  lemma HeadIsLongest(t: Text, limit: nat)
    requires limit <= |Encode(t)|
    ensures IsLongestPrefix(t, limit, Head(t, limit)) && |Encode(Head(t, limit))| <= limit
  {
    PrefixIsLongest(t, limit);
    var n := Fitting(t, limit);
    assert Head(t, limit) == Replaced(t[..n]) by {
      assert FirstBytes(Encode(t), limit) == Encode(t)[..limit];
      CutPrefix(t, limit);
    }
    FittingIsLongest(t, limit);
    ReplacementKeepsBytes(t[..n]);
  }

  lemma Assembled(t: Text, budget: nat, marker: Text, head: Text, tail: Text)
    requires |Encode(marker)| < budget < |Encode(t)|
    requires HeadAndTail(t, budget - |Encode(marker)|, head, tail)
    requires var room := budget - |Encode(marker)|; |Encode(head)| <= room / 2 && |Encode(tail)| <= room - room / 2
    ensures IsBounded(t, budget, marker, head + marker + tail)
  {
    BytesOfThree(head, marker, tail);
  }

  lemma BytesOfThree(a: Text, b: Text, c: Text)
    ensures |Encode(a + b + c)| == |Encode(a)| + |Encode(b)| + |Encode(c)|
  {
    EncodeAppends(a + b, c);
    EncodeAppends(a, b);
  }
}
