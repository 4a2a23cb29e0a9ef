/**
 The Internet checksum of RFC 1071 as the raw-socket client computes it: a 64-bit sum of
 16-bit words, folded exactly twice, complemented and cut to 16 bits.
 */
module Checksum {

  type Byte = x: int | 0 <= x < 256
  type Word16 = x: int | 0 <= x < 65536

  /** Two bytes in memory order as a host of either byte order reads them. */
  function WordOf(x: Byte, y: Byte, little: bool): Word16 {
    if little then x + 256 * y else 256 * x + y
  }

  function FirstByte(w: Word16, little: bool): Byte {
    if little then w % 256 else w / 256
  }

  function SecondByte(w: Word16, little: bool): Byte {
    FirstByte(w, !little)
  }

  function SwapBytes(w: Word16): Word16 {
    w % 256 * 256 + w / 256
  }

  /** The words of a buffer; a trailing odd byte is the first byte of a word whose second is zero. */
  function Words(b: seq<Byte>, little: bool): (ws: seq<Word16>)
    ensures |ws| == (|b| + 1) / 2
  {
    if b == [] then []
    else if |b| == 1 then [WordOf(b[0], 0, little)]
    else [WordOf(b[0], b[1], little)] + Words(b[2..], little)
  }

  /** Word `k` is bytes 2k and 2k + 1 in the host's order. */
  lemma {:induction false} WordsAt(b: seq<Byte>, k: nat, little: bool)
    requires k < |Words(b, little)|
    ensures var x: int, y: int := b[2 * k], if 2 * k + 1 < |b| then b[2 * k + 1] else 0;
            Words(b, little)[k] == if little then x + 256 * y else 256 * x + y
    decreases k
  {
    if k > 0 {
      WordsAt(b[2..], k - 1, little);
    }
  }

  function Sum(ws: seq<Word16>): nat {
    if ws == [] then 0 else ws[0] + Sum(ws[1..])
  }

  /** `(sum >> 16) + (sum & 0xffff)` */
  function FoldOnce(sum: nat): nat {
    sum / 65536 + sum % 65536
  }

  /** The two folds, then `(uint16_t)~sum`: complement in the wide type, truncate. */
  function FoldAndComplement(sum: nat): Word16 {
    var once := FoldOnce(sum);
    var twice := once + once / 65536;
    (-1 - twice) % 65536
  }

  function CheckSumOf(b: seq<Byte>, little: bool): Word16 {
    FoldAndComplement(Sum(Words(b, little)))
  }

  /**
   The two folding statements and the return of `check_sum`, one assignment each, as the
   specification transcribes them; `FoldsAreResidueIff` says what they compute.
   */
  method Fold(sum0: nat) returns (r: Word16)
    ensures r == FoldAndComplement(sum0)
  {
    var sum: int := sum0;
    sum := sum / 65536 + sum % 65536;
    sum := sum + sum / 65536;
    r := (-1 - sum) % 65536;
  }

  /** `check_sum` over `count0` bytes from offset `start`; a count below one reads nothing. */
  method CheckSum(buf: array<Byte>, start: nat, count0: int, little: bool) returns (r: Word16)
    requires count0 < 0x8000_0000
    requires start + count0 <= buf.Length && start <= buf.Length
    ensures r == CheckSumOf(buf[start..if count0 > 0 then start + count0 else start], little)
  {
    var ptr, count, sum := start, count0, 0;
    ghost var end := if count0 > 0 then start + count0 else start;
    ghost var total := Sum(Words(buf[start..end], little));
    WordsSumFitsLong(buf[start..end], little);
    while count > 1
      invariant start <= ptr <= end
      invariant count == if count0 > 0 then end - ptr else count0
      invariant 0 <= sum && sum + Sum(Words(buf[ptr..end], little)) == total
    {
      assert buf[ptr..end][2..] == buf[ptr + 2..end];
      sum := sum + WordOf(buf[ptr], buf[ptr + 1], little);
      ptr := ptr + 2;
      count := count - 2;
    }
    if count == 1 {
      assert buf[ptr..end] == [buf[ptr]];
      LastWord(buf[ptr], little);
      sum := sum + WordOf(buf[ptr], 0, little);
    }
    assert sum == total < 0x8000_0000_0000_0000;
    r := Fold(sum);
  }

  lemma LastWord(x: Byte, little: bool)
    ensures Sum(Words([x], little)) == WordOf(x, 0, little)
  {
    assert Words([x], little) == [WordOf(x, 0, little)];
    assert Sum([WordOf(x, 0, little)]) == WordOf(x, 0, little) + Sum([]);
  }

  // ----- One's-complement addition, the definition in RFC 1071

  /** Addition with end-around carry. */
  function OnesAdd(a: Word16, b: Word16): Word16 {
    if a + b >= 65536 then a + b - 65535 else a + b
  }

  function OnesSum(ws: seq<Word16>): Word16 {
    if ws == [] then 0 else OnesAdd(ws[0], OnesSum(ws[1..]))
  }

  /** The 16-bit word that stands for `s` modulo 65535; 0 only for 0. */
  function Residue(s: nat): Word16 {
    if s == 0 then 0 else (s - 1) % 65535 + 1
  }

  lemma ModShift(a: int, b: int, k: int)
    requires a == b + 65535 * k
    ensures a % 65535 == b % 65535
  {
  }

  lemma ResidueIs(s: nat, r: Word16, k: int)
    requires s == r + 65535 * k
    requires s == 0 <==> r == 0
    ensures Residue(s) == r
  {
    if s > 0 {
      ModShift(s - 1, r - 1, k);
    }
  }

  lemma ResidueSpan(s: nat) returns (k: nat)
    ensures s == Residue(s) + 65535 * k
    ensures s == 0 <==> Residue(s) == 0
  {
    k := if s == 0 then 0 else (s - 1) / 65535;
  }

  lemma {:induction false} OnesSumIsResidue(ws: seq<Word16>)
    ensures OnesSum(ws) == Residue(Sum(ws))
  {
    if ws != [] {
      OnesSumIsResidue(ws[1..]);
      var k := ResidueSpan(Sum(ws[1..]));
      var carry := if ws[0] + OnesSum(ws[1..]) >= 65536 then 1 else 0;
      ResidueIs(Sum(ws), OnesSum(ws), k + carry);
    }
  }

  /** The one's-complement sum is congruent to the plain sum modulo 65535, and 0 only for zeros. */
  lemma OnesSumMeans(ws: seq<Word16>)
    ensures OnesSum(ws) % 65535 == Sum(ws) % 65535
    ensures OnesSum(ws) == 0 <==> forall i :: 0 <= i < |ws| ==> ws[i] == 0
  {
    OnesSumIsResidue(ws);
    var k := ResidueSpan(Sum(ws));
    ModShift(Sum(ws), OnesSum(ws), k);
    SumBound(ws);
  }

  // ----- When two folds are enough

  /** No carry is left after the second fold. */
  predicate FoldsSuffice(sum: nat) {
    FoldOnce(FoldOnce(sum)) < 65536
  }

  lemma FoldOnceShifts(s: nat)
    ensures s == FoldOnce(s) + 65535 * (s / 65536)
    ensures s == 0 <==> FoldOnce(s) == 0
  {
  }

  /** What the program returns, with the carries out of both folds made explicit. */
  lemma FoldsShift(s: nat) returns (v: nat, k: nat)
    ensures v == FoldOnce(FoldOnce(s)) && s == v + 65535 * k && (s == 0 <==> v == 0)
    ensures FoldAndComplement(s) == 65535 - v % 65536
  {
    var once := FoldOnce(s);
    FoldOnceShifts(s);
    FoldOnceShifts(once);
    v, k := FoldOnce(once), s / 65536 + once / 65536;
    LowBits(once, once / 65536, v);
    ComplementLow(once + once / 65536);
  }

  lemma LowBits(once: nat, h: nat, v: nat)
    requires h == once / 65536 && v == h + once % 65536
    ensures (once + h) % 65536 == v % 65536
  {
    assert once + h == v + 65536 * h;
  }

  lemma ComplementLow(x: int)
    ensures (-1 - x) % 65536 == 65535 - x % 65536
  {
    assert -1 - x == 65535 - x % 65536 - 65536 * (x / 65536 + 1);
  }

  lemma FoldsAreResidueIff(s: nat)
    requires s < 0x4000_0000_0000
    ensures FoldAndComplement(s) == 65535 - Residue(s) <==> FoldsSuffice(s)
  {
    var v, k := FoldsShift(s);
    if v < 65536 {
      ResidueIs(s, v, k);
    } else {
      assert v < 65536 + 65535;
      ResidueIs(s, v - 65535, k + 1);
    }
  }

  /** The program's result is the complement of the one's-complement sum exactly when two folds suffice. */
  lemma TwoFoldsExactIff(ws: seq<Word16>)
    requires |ws| <= 0x4000_0000
    ensures FoldAndComplement(Sum(ws)) == 65535 - OnesSum(ws) <==> FoldsSuffice(Sum(ws))
  {
    SumBound(ws);
    OnesSumIsResidue(ws);
    FoldsAreResidueIff(Sum(ws));
  }

  lemma {:induction false} SumBound(ws: seq<Word16>)
    ensures Sum(ws) <= 65535 * |ws|
    ensures Sum(ws) == 0 <==> forall i :: 0 <= i < |ws| ==> ws[i] == 0
  {
    if ws != [] {
      SumBound(ws[1..]);
      assert ws == [ws[0]] + ws[1..];
    }
  }

  /** Up to 65538 words, 131076 bytes, two folds always suffice. */
  lemma ShortSumsFold(ws: seq<Word16>)
    requires |ws| <= 65538
    ensures FoldsSuffice(Sum(ws))
  {
    SumBound(ws);
    assert Sum(ws) <= 65535 * 65538;
  }

  /** So within that length the result is what RFC 1071 defines, and 65535 only for a buffer of zeros. */
  lemma CheckSumMeetsRfc(b: seq<Byte>, little: bool)
    requires |b| <= 131076
    ensures CheckSumOf(b, little) == 65535 - OnesSum(Words(b, little))
    ensures CheckSumOf(b, little) == 65535 <==> forall i :: 0 <= i < |Words(b, little)| ==> Words(b, little)[i] == 0
  {
    var ws := Words(b, little);
    ShortSumsFold(ws);
    TwoFoldsExactIff(ws);
    OnesSumIsResidue(ws);
    SumBound(ws);
  }

  lemma {:induction false} SumAppend(a: seq<Word16>, b: seq<Word16>)
    ensures Sum(a + b) == Sum(a) + Sum(b)
  {
    if a == [] {
      assert a + b == b;
    } else {
      assert (a + b)[1..] == a[1..] + b;
      SumAppend(a[1..], b);
    }
  }

  lemma {:induction false} WordsAppend(a: seq<Byte>, b: seq<Byte>, little: bool)
    requires |a| % 2 == 0
    ensures Words(a + b, little) == Words(a, little) + Words(b, little)
    decreases |a|
  {
    if a == [] {
      assert a + b == b;
    } else {
      assert (a + b)[2..] == a[2..] + b;
      WordsAppend(a[2..], b, little);
    }
  }

  function Repeat(x: Byte, n: nat): (b: seq<Byte>)
    ensures |b| == n
  {
    seq(n, _ => x)
  }

  lemma {:induction false} SumOfOnes(k: nat, little: bool)
    ensures Sum(Words(Repeat(255, 2 * k), little)) == 65535 * k
  {
    if k > 0 {
      SumOfOnes(k - 1, little);
      assert Repeat(255, 2 * k)[2..] == Repeat(255, 2 * (k - 1));
      assert WordOf(255, 255, little) == 65535;
    }
  }

  lemma {:induction false} SumOfZeros(n: nat, little: bool)
    ensures Sum(Words(Repeat(0, n), little)) == 0
  {
    if n >= 2 {
      SumOfZeros(n - 2, little);
      assert Repeat(0, n)[2..] == Repeat(0, n - 2);
    }
  }

  lemma SumOfLastOne(n: nat, little: bool)
    ensures Sum(Words([1] + Repeat(0, n), little)) == WordOf(1, 0, little)
  {
    if n == 0 {
      assert [1] + Repeat(0, 0) == [1];
      LastWord(1, little);
    } else {
      assert [1] + Repeat(0, n) == [1, 0] + Repeat(0, n - 1);
      assert ([1, 0] + Repeat(0, n - 1))[2..] == Repeat(0, n - 1);
      SumOfZeros(n - 1, little);
    }
  }

  /** A buffer of `n` bytes whose sum two folds cannot take in; one byte beyond the bound is enough. */
  lemma CarryLoser(n: nat, little: bool) returns (b: seq<Byte>)
    requires n >= 131077
    ensures |b| == n && Sum(Words(b, little)) == 4295032831
  {
    var w := 65536 - WordOf(1, 0, little);
    var head := [FirstByte(w, little), SecondByte(w, little)];
    var ones, tail := Repeat(255, 131074), [1] + Repeat(0, n - 131077);
    b := head + (ones + tail);
    BytesOfWord(w, little);
    assert Words(head, little) == [w] + Words([], little);
    assert Sum([w]) == w + Sum([]);
    WordsAppend(head, ones + tail, little);
    WordsAppend(ones, tail, little);
    SumAppend(Words(head, little), Words(ones + tail, little));
    SumAppend(Words(ones, little), Words(tail, little));
    SumOfOnes(65537, little);
    SumOfLastOne(n - 131077, little);
  }

  /** The result is right for every buffer of a length exactly if that length is at most 131076 bytes. */
  lemma LengthsExactIff(n: nat, little: bool)
    requires n < 0x8000_0000
    ensures (forall b: seq<Byte> :: |b| == n ==> CheckSumOf(b, little) == 65535 - OnesSum(Words(b, little)))
            <==> n <= 131076
  {
    if n <= 131076 {
      forall b: seq<Byte> | |b| == n
        ensures CheckSumOf(b, little) == 65535 - OnesSum(Words(b, little))
      {
        CheckSumMeetsRfc(b, little);
      }
    } else {
      var b := CarryLoser(n, little);
      TwoFoldsExactIff(Words(b, little));
    }
  }

  /** The sum never leaves `long`, whatever `int` count is passed. */
  lemma WordsSumFitsLong(b: seq<Byte>, little: bool)
    requires |b| < 0x8000_0000
    ensures Sum(Words(b, little)) < 0x8000_0000_0000_0000
  {
    SumBound(Words(b, little));
  }

  // ----- Byte-order independence

  function SwapAll(ws: seq<Word16>): (r: seq<Word16>)
    ensures |r| == |ws|
  {
    seq(|ws|, i requires 0 <= i < |ws| => SwapBytes(ws[i]))
  }

  lemma {:induction false} OtherOrderSwaps(b: seq<Byte>, little: bool)
    ensures Words(b, !little) == SwapAll(Words(b, little))
  {
    if |b| == 1 {
      WordsSwap(b[0], 0, little);
      assert SwapAll([WordOf(b[0], 0, little)]) == [SwapBytes(WordOf(b[0], 0, little))];
    } else if |b| >= 2 {
      OtherOrderSwaps(b[2..], little);
      WordsSwap(b[0], b[1], little);
      SwapAllCons(WordOf(b[0], b[1], little), Words(b[2..], little));
    }
  }

  lemma WordsSwap(x: Byte, y: Byte, little: bool)
    ensures WordOf(x, y, !little) == SwapBytes(WordOf(x, y, little))
  {
  }

  lemma SwapAllCons(w: Word16, ws: seq<Word16>)
    ensures SwapAll([w] + ws) == [SwapBytes(w)] + SwapAll(ws)
  {
  }

  lemma SwapArithmetic(r: Word16)
    ensures 256 * r == SwapBytes(r) + 65535 * (r / 256)
    ensures SwapBytes(r) == 0 <==> r == 0
    ensures 65535 - SwapBytes(r) == SwapBytes(65535 - r)
    ensures FirstByte(SwapBytes(r), true) == FirstByte(r, false)
    ensures FirstByte(SwapBytes(r), false) == FirstByte(r, true)
  {
    var x, y := r % 256, r / 256;
    assert (65535 - r) % 256 == 255 - x && (65535 - r) / 256 == 255 - y by {
      assert 65535 - r == 256 * (255 - y) + (255 - x);
    }
  }

  /** Swapping multiplies by 256 modulo 65535. */
  lemma {:induction false} SwapMultiplies(ws: seq<Word16>) returns (k: nat)
    ensures 256 * Sum(ws) == Sum(SwapAll(ws)) + 65535 * k
    ensures Sum(ws) == 0 <==> Sum(SwapAll(ws)) == 0
  {
    if ws == [] {
      k := 0;
    } else {
      var k' := SwapMultiplies(ws[1..]);
      assert ws == [ws[0]] + ws[1..];
      SwapAllCons(ws[0], ws[1..]);
      SwapArithmetic(ws[0]);
      k := k' + ws[0] / 256;
    }
  }

  lemma SwapOfResidue(s: nat, s': nat, k: int)
    requires 256 * s == s' + 65535 * k && (s == 0 <==> s' == 0)
    ensures Residue(s') == SwapBytes(Residue(s))
  {
    var r := Residue(s);
    var m := ResidueSpan(s);
    SwapArithmetic(r);
    ResidueIs(s', SwapBytes(r), r / 256 + 256 * m - k);
  }

  lemma SwapCommutesWithSum(ws: seq<Word16>)
    ensures OnesSum(SwapAll(ws)) == SwapBytes(OnesSum(ws))
  {
    OnesSumIsResidue(ws);
    OnesSumIsResidue(SwapAll(ws));
    var k := SwapMultiplies(ws);
    SwapOfResidue(Sum(ws), Sum(SwapAll(ws)), k);
  }

  /**
   Section 2(B) of RFC 1071: swapping the bytes of every word swaps the bytes of the checksum.
   Hence hosts of opposite byte order store the same two bytes, odd-length buffers included.
   */
  lemma ByteOrderIndependence(b: seq<Byte>, little: bool)
    requires |b| <= 131076
    ensures FoldAndComplement(Sum(SwapAll(Words(b, little)))) == SwapBytes(CheckSumOf(b, little))
    ensures FirstByte(CheckSumOf(b, !little), !little) == FirstByte(CheckSumOf(b, little), little)
    ensures SecondByte(CheckSumOf(b, !little), !little) == SecondByte(CheckSumOf(b, little), little)
  {
    var ws := Words(b, little);
    OtherOrderSwaps(b, little);
    CheckSumMeetsRfc(b, little);
    CheckSumMeetsRfc(b, !little);
    SwapCommutesWithSum(ws);
    SwapArithmetic(OnesSum(ws));
    SwapArithmetic(CheckSumOf(b, little));
  }

  // ----- Self-verification

  lemma {:induction false} WordsUpdate(b: seq<Byte>, o: nat, x: Byte, y: Byte, little: bool)
    requires o % 2 == 0 && o + 1 < |b|
    ensures Words(b[o := x][o + 1 := y], little) == Words(b, little)[o / 2 := WordOf(x, y, little)]
    decreases |b|
  {
    var c := b[o := x][o + 1 := y];
    if o == 0 {
      assert c[2..] == b[2..];
    } else {
      WordsUpdate(b[2..], o - 2, x, y, little);
      assert c[2..] == b[2..][o - 2 := x][o - 1 := y];
    }
  }

  lemma {:induction false} SumUpdate(ws: seq<Word16>, i: nat, w: Word16)
    requires i < |ws|
    ensures Sum(ws[i := w]) == Sum(ws) - ws[i] + w
  {
    if i == 0 {
      assert ws[i := w][1..] == ws[1..];
    } else {
      SumUpdate(ws[1..], i - 1, w);
      assert ws[i := w][1..] == ws[1..][i - 1 := w];
    }
  }

  /** A buffer verifies, that is its checksum is 0, exactly when its word sum is a positive multiple of 65535. */
  lemma VerifiesIff(b: seq<Byte>, little: bool)
    requires |b| <= 131076
    ensures CheckSumOf(b, little) == 0 <==> Sum(Words(b, little)) > 0 && Sum(Words(b, little)) % 65535 == 0
  {
    CheckSumMeetsRfc(b, little);
    OnesSumIsResidue(Words(b, little));
    FullResidueIff(Sum(Words(b, little)));
  }

  lemma FullResidueIff(s: nat)
    ensures Residue(s) == 65535 <==> s > 0 && s % 65535 == 0
  {
    var k := ResidueSpan(s);
    ModShift(s, Residue(s), k);
  }

  /** `b` with the word at byte offset `o` replaced, as a store through a `uint16_t` field does. */
  function WithWord(b: seq<Byte>, o: nat, w: Word16, little: bool): (c: seq<Byte>)
    requires o + 1 < |b|
    ensures |c| == |b|
  {
    b[o := FirstByte(w, little)][o + 1 := SecondByte(w, little)]
  }

  lemma WithWordWords(b: seq<Byte>, o: nat, w: Word16, little: bool)
    requires o % 2 == 0 && o + 1 < |b|
    ensures o / 2 < |Words(b, little)|
    ensures Words(WithWord(b, o, w, little), little) == Words(b, little)[o / 2 := w]
  {
    WordsUpdate(b, o, FirstByte(w, little), SecondByte(w, little), little);
    BytesOfWord(w, little);
  }

  lemma WithWordSum(b: seq<Byte>, o: nat, w: Word16, little: bool)
    requires o % 2 == 0 && o + 1 < |b|
    ensures o / 2 < |Words(b, little)|
    ensures Sum(Words(WithWord(b, o, w, little), little)) == Sum(Words(b, little)) - Words(b, little)[o / 2] + w
    ensures Words(WithWord(b, o, w, little), little)[o / 2] == w
  {
    WithWordWords(b, o, w, little);
    SumUpdate(Words(b, little), o / 2, w);
  }

  lemma BytesOfWord(w: Word16, little: bool)
    ensures WordOf(FirstByte(w, little), SecondByte(w, little), little) == w
  {
  }

  lemma FillsUp(s: nat, c: nat)
    requires c == 65535 - Residue(s)
    ensures s + c > 0 && (s + c) % 65535 == 0
  {
    var k := ResidueSpan(s);
    assert s + c == 65535 * (k + 1);
  }

  /** Zero the checksum word, store the checksum of the rest in it, and the whole verifies. */
  lemma SelfVerification(b: seq<Byte>, o: nat, little: bool)
    requires o % 2 == 0 && o + 1 < |b| <= 131076
    ensures var zeroed := WithWord(b, o, 0, little);
            CheckSumOf(WithWord(zeroed, o, CheckSumOf(zeroed, little), little), little) == 0
  {
    var zeroed := WithWord(b, o, 0, little);
    var c := CheckSumOf(zeroed, little);
    WithWordSum(b, o, 0, little);
    WithWordSum(zeroed, o, c, little);
    var s := Sum(Words(zeroed, little));
    CheckSumMeetsRfc(zeroed, little);
    OnesSumIsResidue(Words(zeroed, little));
    FillsUp(s, c);
    VerifiesIff(WithWord(zeroed, o, c, little), little);
  }

  /**
   What verification catches: after any change of one word of a buffer that verifies, it still
   verifies only if an all-zeros word became all ones or the reverse, and not all words are 0.
   */
  lemma SingleWordErrors(b: seq<Byte>, o: nat, w: Word16, little: bool)
    requires o % 2 == 0 && o + 1 < |b| <= 131076
    requires CheckSumOf(b, little) == 0
    ensures var was := Words(b, little)[o / 2];
            CheckSumOf(WithWord(b, o, w, little), little) == 0
            <==> w == was || (was == 0 && w == 65535) || (was == 65535 && w == 0 && Sum(Words(b, little)) > 65535)
  {
    WithWordSum(b, o, w, little);
    VerifiesIff(b, little);
    VerifiesIff(WithWord(b, o, w, little), little);
    WordAtMostSum(Words(b, little), o / 2);
    WordChange(Sum(Words(b, little)), Words(b, little)[o / 2], w);
  }

  lemma {:induction false} WordAtMostSum(ws: seq<Word16>, i: nat)
    requires i < |ws|
    ensures ws[i] <= Sum(ws)
  {
    if i > 0 {
      WordAtMostSum(ws[1..], i - 1);
    }
  }

  lemma WordChange(s: nat, was: Word16, w: Word16)
    requires was <= s && s > 0 && s % 65535 == 0
    ensures s - was + w > 0 && (s - was + w) % 65535 == 0
            <==> w == was || (was == 0 && w == 65535) || (was == 65535 && w == 0 && s > 65535)
  {
    var k, s' := s / 65535, s - was + w;
    assert s == 65535 * k;
    if s' % 65535 == 0 {
      assert w - was == 65535 * (s' / 65535 - k);
    } else if was == 0 && w == 65535 {
      ModShift(s', 0, k + 1);
    } else if was == 65535 && w == 0 {
      ModShift(s', 0, k - 1);
    }
  }

  /** The header code of `main`: clear the field, checksum the header, store the result. */
  method SealHeader(buf: array<Byte>, start: nat, len: nat, o: nat, little: bool)
    requires start + len <= buf.Length
    requires o % 2 == 0 && o + 1 < len <= 131076
    modifies buf
    ensures var zeroed := WithWord(old(buf[start..start + len]), o, 0, little);
            buf[start..start + len] == WithWord(zeroed, o, CheckSumOf(zeroed, little), little)
    ensures CheckSumOf(buf[start..start + len], little) == 0
    ensures forall i :: 0 <= i < buf.Length && i != start + o && i != start + o + 1 ==> buf[i] == old(buf[i])
  {
    ghost var b := buf[start..start + len];
    buf[start + o] := 0;
    buf[start + o + 1] := 0;
    ghost var zeroed := WithWord(b, o, 0, little);
    assert buf[start..start + len] == zeroed;
    var c := CheckSum(buf, start, len, little);
    buf[start + o] := FirstByte(c, little);
    buf[start + o + 1] := SecondByte(c, little);
    assert buf[start..start + len] == WithWord(zeroed, o, c, little);
    SelfVerification(b, o, little);
  }
}
