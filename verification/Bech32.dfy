/**
 * The Bech32 checksum of BIP-173 ("Bech32" section, Checksum) as the faucet checks it
 * (ops/testnet-faucet/recovery.js).
 */
module Bech32 {

  type Word = bv32

  /** Exclusive or, and the sizes of symbols and checksums, by name. */
  function Plus(a: Word, b: Word): Word { a ^ b }

  predicate IsSymbol(v: Word) { v < 32 }

  predicate IsChecksum(v: Word) { v < 0x4000_0000 }

  function Masked(top: Word, mask: Word): Word { top & mask }

  /** A generator value is fed back when its bit of the part shifted out is set. */
  function Gate(top: Word, mask: Word, generator: Word): Word { if Masked(top, mask) != 0 then generator else 0 }

  function Gate0(top: Word): Word { Gate(top, 1, 0x3b6a57b2) }

  function Gate1(top: Word): Word { Gate(top, 2, 0x26508e6d) }

  function Gate2(top: Word): Word { Gate(top, 4, 0x1ea119fa) }

  function Gate3(top: Word): Word { Gate(top, 8, 0x3d4233dd) }

  function Gate4(top: Word): Word { Gate(top, 16, 0x2a1462b3) }

  function Feedback(top: Word): Word {
    Plus(Plus(Plus(Plus(Gate0(top), Gate1(top)), Gate2(top)), Gate3(top)), Gate4(top))
  }

  function Shifted(chk: Word): Word { (chk & 0x1ffffff) << 5 }

  function Top(chk: Word): Word { chk >> 25 }

  /** One turn of the checksum loop: shift in a 5-bit symbol. */
  function Step(chk: Word, value: Word): Word { Plus(Plus(Shifted(chk), value), Feedback(Top(chk))) }

  function Fold(chk: Word, values: seq<Word>): Word {
    if values == [] then chk else Step(Fold(chk, values[..|values| - 1]), values[|values| - 1])
  }

  ghost predicate Symbols(values: seq<Word>) {
    forall i :: 0 <= i < |values| ==> IsSymbol(values[i])
  }

  // --- The algebra of one step ---

  lemma MaskIsLinear(s: Word, t: Word, mask: Word)
    ensures Masked(Plus(s, t), mask) == Plus(Masked(s, mask), Masked(t, mask))
  {
  }

  lemma MaskIsBit(s: Word, mask: Word)
    requires mask == 1 || mask == 2 || mask == 4 || mask == 8 || mask == 16
    ensures Masked(s, mask) == 0 || Masked(s, mask) == mask
  {
    if mask == 1 {
      assert s & 1 == 0 || s & 1 == 1;
    } else if mask == 2 {
      assert s & 2 == 0 || s & 2 == 2;
    } else if mask == 4 {
      assert s & 4 == 0 || s & 4 == 4;
    } else if mask == 8 {
      assert s & 8 == 0 || s & 8 == 8;
    } else {
      assert s & 16 == 0 || s & 16 == 16;
    }
  }

  lemma PlusZero(x: Word)
    ensures Plus(x, x) == 0 && Plus(x, 0) == x && Plus(0, x) == x
  {
  }

  lemma GateIsLinear(s: Word, t: Word, mask: Word, generator: Word)
    requires mask == 1 || mask == 2 || mask == 4 || mask == 8 || mask == 16
    ensures Gate(Plus(s, t), mask, generator) == Plus(Gate(s, mask, generator), Gate(t, mask, generator))
  {
    hide Masked, Plus;
    MaskIsLinear(s, t, mask);
    MaskIsBit(s, mask);
    MaskIsBit(t, mask);
    PlusZero(mask);
    PlusZero(generator);
    PlusZero(0);
  }

  lemma XorAssociative(a: Word, b: Word, c: Word)
    ensures (a ^ b) ^ c == a ^ (b ^ c)
  {
  }

  lemma PlusAssociative(a: Word, b: Word, c: Word)
    ensures Plus(Plus(a, b), c) == Plus(a, Plus(b, c))
  {
    XorAssociative(a, b, c);
    assert Plus(a, b) == a ^ b && Plus(b, c) == b ^ c;
  }

  lemma PlusCommutes(a: Word, b: Word)
    ensures Plus(a, b) == Plus(b, a)
  {
  }

  lemma PlusPairs(a: Word, b: Word, c: Word, d: Word)
    ensures Plus(Plus(a, b), Plus(c, d)) == Plus(Plus(a, c), Plus(b, d))
  {
    hide Plus;
    PlusAssociative(a, b, Plus(c, d));
    PlusAssociative(b, c, d);
    PlusCommutes(b, c);
    PlusAssociative(c, b, d);
    PlusAssociative(a, c, Plus(b, d));
  }

  lemma FeedbackIsLinear(s: Word, t: Word)
    ensures Feedback(Plus(s, t)) == Plus(Feedback(s), Feedback(t))
  {
    hide Gate, Plus;
    GateIsLinear(s, t, 1, 0x3b6a57b2);
    GateIsLinear(s, t, 2, 0x26508e6d);
    GateIsLinear(s, t, 4, 0x1ea119fa);
    GateIsLinear(s, t, 8, 0x3d4233dd);
    GateIsLinear(s, t, 16, 0x2a1462b3);
    var a1, b1 := Plus(Gate0(s), Gate1(s)), Plus(Gate0(t), Gate1(t));
    var a2, b2 := Plus(a1, Gate2(s)), Plus(b1, Gate2(t));
    var a3, b3 := Plus(a2, Gate3(s)), Plus(b2, Gate3(t));
    PlusPairs(Gate0(s), Gate0(t), Gate1(s), Gate1(t));
    PlusPairs(a1, b1, Gate2(s), Gate2(t));
    PlusPairs(a2, b2, Gate3(s), Gate3(t));
    PlusPairs(a3, b3, Gate4(s), Gate4(t));
  }

  lemma ShiftIsLinear(a: Word, b: Word)
    ensures Shifted(Plus(a, b)) == Plus(Shifted(a), Shifted(b)) && Top(Plus(a, b)) == Plus(Top(a), Top(b))
  {
  }

  /** The step is linear over exclusive or. */
  lemma StepIsLinear(a: Word, b: Word, v: Word, w: Word)
    ensures Step(Plus(a, b), Plus(v, w)) == Plus(Step(a, v), Step(b, w))
  {
    hide Feedback, Shifted, Top, Plus;
    ShiftIsLinear(a, b);
    FeedbackIsLinear(Top(a), Top(b));
    PlusPairs(Shifted(a), Shifted(b), v, w);
    PlusPairs(Plus(Shifted(a), v), Plus(Shifted(b), w), Feedback(Top(a)), Feedback(Top(b)));
  }

  lemma StepStaysSmall(a: Word, v: Word)
    requires IsSymbol(v)
    ensures IsChecksum(Step(a, v))
  {
  }

  /** Shifting in a zero symbol loses nothing: a nonzero remainder stays nonzero. */
  lemma ZeroStepIsInjective(a: Word)
    requires a != 0 && IsChecksum(a)
    ensures Step(a, 0) != 0
  {
  }

  lemma ZeroStepOfZero()
    ensures Step(0, 0) == 0
  {
  }

  // What n symbols folded from zero stay below: five bits per symbol.
  predicate Fits(a: Word, n: nat) {
    if n == 0 then a == 0
    else if n == 1 then a < 0x20
    else if n == 2 then a < 0x400
    else if n == 3 then a < 0x8000
    else if n == 4 then a < 0x10_0000
    else if n == 5 then a < 0x200_0000
    else a < 0x4000_0000
  }

  /** While at most six symbols are in play nothing is fed back: the step only appends the symbol. */
  lemma StepAppends(a: Word, v: Word, n: nat)
    requires n < 6 && Fits(a, n) && IsSymbol(v)
    ensures Fits(Step(a, v), n + 1)
    ensures Step(a, v) == 0 <==> a == 0 && v == 0
  {
    hide Step, IsSymbol, Append;
    FitsBelow(a, n);
    StepBelow(a, v);
    Appended(a, v);
  }

  lemma FitsBelow(a: Word, n: nat)
    requires n < 6 && Fits(a, n)
    ensures a < 0x200_0000
  {
  }

  function Append(a: Word, v: Word): Word { (a << 5) | v }

  lemma StepBelow(a: Word, v: Word)
    requires a < 0x200_0000 && IsSymbol(v)
    ensures Step(a, v) == Append(a, v)
  {
    hide Feedback, Top, Shifted, Plus, Append;
    NothingShiftedOut(a);
    NothingFedBack();
    PlusAppends(a, v);
  }

  lemma NothingShiftedOut(a: Word)
    requires a < 0x200_0000
    ensures Top(a) == 0 && Shifted(a) == a << 5
  {
  }

  lemma NothingFedBack()
    ensures Feedback(0) == 0
  {
  }

  lemma PlusAppends(a: Word, v: Word)
    requires a < 0x200_0000 && IsSymbol(v)
    ensures Plus(Plus(a << 5, v), 0) == Append(a, v)
  {
    XorAppends(a, v);
    assert Plus(a << 5, v) == (a << 5) ^ v;
  }

  lemma XorAppends(a: Word, v: Word)
    requires v < 32
    ensures ((a << 5) ^ v) ^ 0 == (a << 5) | v
  {
  }

  lemma Appended(a: Word, v: Word)
    requires a < 0x200_0000 && IsSymbol(v)
    ensures Append(a, v) == 0 <==> a == 0 && v == 0
    ensures a == 0 ==> Append(a, v) < 0x20
    ensures a < 0x20 ==> Append(a, v) < 0x400
    ensures a < 0x400 ==> Append(a, v) < 0x8000
    ensures a < 0x8000 ==> Append(a, v) < 0x10_0000
    ensures a < 0x10_0000 ==> Append(a, v) < 0x200_0000
    ensures Append(a, v) < 0x4000_0000
  {
  }

  // --- Folds ---

  function Xor(a: seq<Word>, b: seq<Word>): (r: seq<Word>)
    requires |a| == |b|
    ensures |r| == |a|
  {
    seq(|a|, i requires 0 <= i < |a| => Plus(a[i], b[i]))
  }

  /** The fold is linear in the start value and the symbols together. */
  lemma {:induction false} FoldIsLinear(s: Word, t: Word, a: seq<Word>, b: seq<Word>)
    requires |a| == |b|
    ensures Fold(Plus(s, t), Xor(a, b)) == Plus(Fold(s, a), Fold(t, b))
  {
    hide Step, Plus;
    if a != [] {
      var n := |a| - 1;
      assert Xor(a, b)[..n] == Xor(a[..n], b[..n]);
      FoldIsLinear(s, t, a[..n], b[..n]);
      StepIsLinear(Fold(s, a[..n]), Fold(t, b[..n]), a[n], b[n]);
    }
  }

  lemma {:induction false} FoldConcat(s: Word, a: seq<Word>, b: seq<Word>)
    ensures Fold(s, a + b) == Fold(Fold(s, a), b)
  {
    hide Step;
    if b == [] {
      assert a + b == a;
    } else {
      assert (a + b)[..|a + b| - 1] == a + b[..|b| - 1];
      FoldConcat(s, a, b[..|b| - 1]);
    }
  }

  lemma {:induction false} FoldZeros(s: Word, zeros: seq<Word>)
    requires IsChecksum(s) && forall i :: 0 <= i < |zeros| ==> zeros[i] == 0
    ensures s == 0 ==> Fold(s, zeros) == 0
    ensures s != 0 ==> Fold(s, zeros) != 0
    ensures IsChecksum(Fold(s, zeros))
  {
    hide Step, IsChecksum;
    if zeros != [] {
      var n := |zeros| - 1;
      FoldZeros(s, zeros[..n]);
      ZeroIsSymbol();
      StepStaysSmall(Fold(s, zeros[..n]), 0);
      if s == 0 { ZeroStepOfZero(); } else { ZeroStepIsInjective(Fold(s, zeros[..n])); }
    }
  }

  lemma ZeroIsSymbol()
    ensures IsSymbol(0) && IsChecksum(0)
  {
  }

  /** Up to six symbols folded from zero are just packed side by side, so only zeros give zero. */
  lemma {:induction false} SixSymbolsFit(d: seq<Word>)
    requires |d| <= 6 && Symbols(d)
    ensures Fits(Fold(0, d), |d|) && IsChecksum(Fold(0, d))
    ensures Fold(0, d) == 0 <==> forall i :: 0 <= i < |d| ==> d[i] == 0
  {
    hide Step, Fits, IsChecksum, IsSymbol;
    if d == [] {
      ZeroIsSymbol();
      ZeroFits();
    } else {
      var n := |d| - 1;
      SixSymbolsFit(d[..n]);
      StepAppends(Fold(0, d[..n]), d[n], n);
      StepStaysSmall(Fold(0, d[..n]), d[n]);
    }
  }

  lemma ZeroFits()
    ensures Fits(0, 0)
  {
  }

  /** A nonzero difference confined to six consecutive symbols never folds to zero, whatever surrounds it. */
  lemma BurstIsSeen(before: seq<Word>, burst: seq<Word>, after: seq<Word>)
    requires |burst| <= 6 && Symbols(burst) && exists i :: 0 <= i < |burst| && burst[i] != 0
    requires (forall i :: 0 <= i < |before| ==> before[i] == 0) && (forall i :: 0 <= i < |after| ==> after[i] == 0)
    ensures Fold(0, before + burst + after) != 0
  {
    hide Fold, IsSymbol, IsChecksum, Fits;
    ZeroIsSymbol();
    FoldConcat(0, before + burst, after);
    FoldConcat(0, before, burst);
    FoldZeros(0, before);
    SixSymbolsFit(burst);
    FoldZeros(Fold(0, burst), after);
  }

  /** The words differ, and only within the six positions from p on. */
  ghost predicate DifferInBurst(a: seq<Word>, b: seq<Word>, p: nat) {
    && |a| == |b| && a != b
    && forall i :: 0 <= i < |a| && a[i] != b[i] ==> p <= i < p + 6
  }

  lemma PlusIsZero(x: Word, y: Word)
    ensures Plus(x, y) == 0 <==> x == y
    ensures IsSymbol(x) && IsSymbol(y) ==> IsSymbol(Plus(x, y))
  {
  }

  /**
   * Two words of symbols that differ within six consecutive positions never have the same
   * checksum, for any length and from any start value.
   */
  lemma BurstChangesChecksum(s: Word, a: seq<Word>, b: seq<Word>, p: nat)
    requires Symbols(a) && Symbols(b) && DifferInBurst(a, b, p)
    ensures Fold(s, a) != Fold(s, b)
  {
    hide Step, Fold, Plus, IsSymbol;
    var d := Xor(a, b);
    FoldIsLinear(s, s, a, b);
    PlusIsZero(s, s);
    PlusIsZero(Fold(s, a), Fold(s, b));
    var lo := if p < |a| then p else |a|;
    var hi := if p + 6 < |a| then p + 6 else |a|;
    DifferenceInBurst(a, b, lo, hi);
    BurstIsSeen(d[..lo], d[lo..hi], d[hi..]);
    assert d == d[..lo] + d[lo..hi] + d[hi..];
  }

  lemma DifferenceInBurst(a: seq<Word>, b: seq<Word>, lo: nat, hi: nat)
    requires Symbols(a) && Symbols(b) && |a| == |b| && a != b && lo <= hi <= |a|
    requires forall i :: 0 <= i < |a| && a[i] != b[i] ==> lo <= i < hi
    ensures var d := Xor(a, b);
            && (forall i :: 0 <= i < lo ==> d[..lo][i] == 0)
            && (forall i :: 0 <= i < |d[hi..]| ==> d[hi..][i] == 0)
            && Symbols(d[lo..hi]) && exists i :: 0 <= i < |d[lo..hi]| && d[lo..hi][i] != 0
  {
    hide Plus, IsSymbol;
    var d := Xor(a, b);
    forall i | 0 <= i < |a| ensures (d[i] == 0 <==> a[i] == b[i]) && IsSymbol(d[i]) { PlusIsZero(a[i], b[i]); }
    var i :| 0 <= i < |a| && a[i] != b[i];
    assert d[lo..hi][i - lo] == d[i];
  }

  // --- Addresses ---

  const ALPHABET: string := "qpzry9x8gf2tvdw0s3jn54khce6mua7l"

  /** The symbols of the prefix "xtc", as the high and low bits of its letters. */
  const PREFIX: seq<Word> := [3, 3, 3, 0, 24, 20, 3]

  /** alphabet.indexOf(c). */
  function IndexOf(alphabet: string, c: char): (i: int)
    ensures -1 <= i < |alphabet| && (i >= 0 ==> alphabet[i] == c)
    ensures i == -1 ==> c !in alphabet
  {
    if alphabet == "" then -1
    else
      var n := |alphabet| - 1;
      var before := IndexOf(alphabet[..n], c);
      if alphabet[n] == c && before == -1 then n else before
  }

  /** The shape the regular expression demands: "xtc1" and 38 characters of the alphabet. */
  predicate WellShaped(address: string) {
    && |address| == 42 && address[..4] == "xtc1"
    && forall i :: 4 <= i < 42 ==> address[i] in ALPHABET
  }

  function NumberOf(i: nat): (v: Word)
    requires i < 32
    ensures IsSymbol(v)
  {
    (i as bv5) as Word
  }

  lemma Bv5KeepsNumber(i: nat)
    requires i < 32
    ensures (i as bv5) as int == i
  {
  }

  lemma WideningIsInjective(x: bv5, y: bv5)
    requires x as Word == y as Word
    ensures x == y
  {
  }

  lemma NumberIsInjective(i: nat, j: nat)
    requires i < 32 && j < 32 && NumberOf(i) == NumberOf(j)
    ensures i == j
  {
    Bv5KeepsNumber(i);
    Bv5KeepsNumber(j);
    WideningIsInjective(i as bv5, j as bv5);
  }

  function ValueOf(c: char): (v: Word)
    requires c in ALPHABET
    ensures IsSymbol(v)
  {
    NumberOf(IndexOf(ALPHABET, c))
  }

  lemma ValueIsInjective(c: char, d: char)
    requires c in ALPHABET && d in ALPHABET && ValueOf(c) == ValueOf(d)
    ensures c == d
  {
    hide NumberOf, IsSymbol;
    NumberIsInjective(IndexOf(ALPHABET, c), IndexOf(ALPHABET, d));
  }

  function Values(address: string): (vs: seq<Word>)
    requires WellShaped(address)
    ensures |vs| == 38 && Symbols(vs)
  {
    seq(38, i requires 0 <= i < 38 => ValueOf(address[4 + i]))
  }

  predicate IsValid(address: string) {
    WellShaped(address) && Fold(1, PREFIX + Values(address)) == 1
  }

  /** validAddress, with its loop over the prefix and the data symbols. */
  method ValidAddress(address: string) returns (ok: bool)
    ensures ok <==> IsValid(address)
  {
    hide Step;
    if !WellShaped(address) {
      return false;
    }
    var values := PREFIX + Values(address);
    var chk: Word := 1;
    for i := 0 to |values|
      invariant chk == Fold(1, values[..i])
    {
      chk := Step(chk, values[i]);
      assert values[..i + 1][..i] == values[..i];
    }
    assert values[..|values|] == values;
    return chk == 1;
  }

  /** Changing a valid address within six consecutive characters makes it invalid. */
  lemma BurstInvalidates(a: string, b: string, p: nat)
    requires IsValid(a) && WellShaped(b) && a != b
    requires forall i :: 0 <= i < 42 && a[i] != b[i] ==> p <= i < p + 6
    ensures !IsValid(b)
  {
    hide Fold, Symbols, ValueOf, IsSymbol;
    var x, y := PREFIX + Values(a), PREFIX + Values(b);
    PrefixedSymbols(Values(a));
    PrefixedSymbols(Values(b));
    SomeSymbolDiffers(a, b);
    forall i | 0 <= i < 45 && x[i] != y[i] ensures p <= i - 3 < p + 6 {
      SymbolPlace(a, i);
      SymbolPlace(b, i);
    }
    BurstChangesChecksum(1, x, y, p + 3);
  }

  /** Symbol i of the checked word comes from the prefix or from character i - 3. */
  lemma SymbolPlace(a: string, i: nat)
    requires WellShaped(a) && i < 45
    ensures |PREFIX + Values(a)| == 45
    ensures (PREFIX + Values(a))[i] == if i < 7 then PREFIX[i] else ValueOf(a[i - 3])
  {
    hide ValueOf;
    assert i >= 7 ==> (PREFIX + Values(a))[i] == Values(a)[i - 7];
  }

  lemma PrefixedSymbols(vs: seq<Word>)
    requires Symbols(vs)
    ensures Symbols(PREFIX + vs)
  {
  }

  lemma SomeSymbolDiffers(a: string, b: string)
    requires WellShaped(a) && WellShaped(b) && a != b
    ensures PREFIX + Values(a) != PREFIX + Values(b)
  {
    hide ValueOf, Values;
    var i :| 0 <= i < 42 && a[i] != b[i];
    assert a[..4] == b[..4];
    assert forall j :: 0 <= j < 4 ==> a[j] == a[..4][j] && b[j] == b[..4][j];
    SymbolPlace(a, i + 3);
    SymbolPlace(b, i + 3);
    if ValueOf(a[i]) == ValueOf(b[i]) { ValueIsInjective(a[i], b[i]); }
  }

  // --- Every payload has its checksum ---

  /** The six symbols of a checksum, highest bits first. */
  function Pieces(x: Word): (d: seq<Word>)
    ensures |d| == 6
  {
    [(x >> 25) & 31, (x >> 20) & 31, (x >> 15) & 31, (x >> 10) & 31, (x >> 5) & 31, x & 31]
  }

  lemma Append25(x: Word)
    requires IsChecksum(x)
    ensures Append(0, (x >> 25) & 31) == x >> 25 && IsSymbol((x >> 25) & 31) && x >> 25 < 0x200_0000
  {
  }

  lemma Append20(x: Word)
    ensures Append(x >> 25, (x >> 20) & 31) == x >> 20 && IsSymbol((x >> 20) & 31) && x >> 20 < 0x200_0000
  {
  }

  lemma Append15(x: Word)
    ensures Append(x >> 20, (x >> 15) & 31) == x >> 15 && IsSymbol((x >> 15) & 31) && x >> 15 < 0x200_0000
  {
  }

  lemma Append10(x: Word)
    ensures Append(x >> 15, (x >> 10) & 31) == x >> 10 && IsSymbol((x >> 10) & 31) && x >> 10 < 0x200_0000
  {
  }

  lemma Append5(x: Word)
    requires IsChecksum(x)
    ensures Append(x >> 10, (x >> 5) & 31) == x >> 5 && IsSymbol((x >> 5) & 31) && x >> 5 < 0x200_0000
  {
  }

  lemma Append0(x: Word)
    ensures Append(x >> 5, x & 31) == x && IsSymbol(x & 31)
  {
  }

  lemma FoldOneMore(s: Word, values: seq<Word>, v: Word)
    ensures Fold(s, values + [v]) == Step(Fold(s, values), v)
  {
    assert (values + [v])[..|values|] == values;
  }

  lemma FoldThree(s: Word, a: Word, b: Word, c: Word)
    ensures Fold(s, [a, b, c]) == Step(Step(Step(s, a), b), c)
  {
    hide Step, Fold;
    FoldNothing(s);
    FoldOneMore(s, [], a);
    FoldOneMore(s, [a], b);
    FoldOneMore(s, [a, b], c);
    assert [] + [a] == [a] && [a] + [b] == [a, b] && [a, b] + [c] == [a, b, c];
  }

  /** Six symbols can fold from zero to any checksum. */
  lemma PiecesFold(x: Word)
    requires IsChecksum(x)
    ensures Symbols(Pieces(x)) && Fold(0, Pieces(x)) == x
  {
    hide Fold, Step, Append, IsSymbol, IsChecksum;
    var d := Pieces(x);
    Append25(x);
    Append20(x);
    Append15(x);
    Append10(x);
    Append5(x);
    Append0(x);
    FoldThree(0, d[0], d[1], d[2]);
    FoldThree(x >> 15, d[3], d[4], d[5]);
    FoldConcat(0, [d[0], d[1], d[2]], [d[3], d[4], d[5]]);
    assert [d[0], d[1], d[2]] + [d[3], d[4], d[5]] == d;
    StepBelow(0, d[0]);
    StepBelow(x >> 25, d[1]);
    StepBelow(x >> 20, d[2]);
    StepBelow(x >> 15, d[3]);
    StepBelow(x >> 10, d[4]);
    StepBelow(x >> 5, d[5]);
  }

  lemma FoldNothing(s: Word)
    ensures Fold(s, []) == s
  {
  }

  lemma PlusCancels(x: Word, y: Word)
    ensures Plus(x, Plus(x, y)) == y
    ensures IsChecksum(x) && IsChecksum(y) ==> IsChecksum(Plus(x, y))
    ensures IsChecksum(1)
  {
  }

  /** From any state six symbols reach the final value 1. */
  lemma ReachesOne(s: Word, d: seq<Word>)
    requires d == Pieces(Plus(Fold(s, [0, 0, 0, 0, 0, 0]), 1))
    ensures Symbols(d) && Fold(s, d) == 1
  {
    hide Fold, Step, Plus, Pieces, IsSymbol, IsChecksum, Symbols;
    var zeros: seq<Word> := [0, 0, 0, 0, 0, 0];
    var end := Fold(s, zeros);
    FoldStaysSmall(s, zeros);
    PlusCancels(end, 1);
    PiecesFold(Plus(end, 1));
    FoldIsLinear(s, 0, zeros, d);
    PlusZero(s);
    forall i | 0 <= i < 6 ensures Xor(zeros, d)[i] == d[i] { PlusZero(d[i]); }
    assert Xor(zeros, d) == d;
  }

  lemma FoldStaysSmall(s: Word, values: seq<Word>)
    requires values != [] && forall i :: 0 <= i < |values| ==> values[i] == 0
    ensures IsChecksum(Fold(s, values))
  {
    hide Step, IsChecksum;
    ZeroIsSymbol();
    StepStaysSmall(Fold(s, values[..|values| - 1]), values[|values| - 1]);
  }

  lemma Bv5RoundTrip(x: bv5)
    ensures (x as int) as bv5 == x
  {
  }

  lemma NarrowAndWiden(v: Word)
    requires IsSymbol(v)
    ensures (v as bv5) as Word == v
  {
  }

  /** Every symbol has a number. */
  lemma NumberOfSymbol(v: Word) returns (i: nat)
    requires IsSymbol(v)
    ensures i < 32 && NumberOf(i) == v
  {
    i := (v as bv5) as int;
    Bv5RoundTrip(v as bv5);
    NarrowAndWiden(v);
  }

  lemma FirstLettersDiffer(i: nat, j: nat)
    requires i < j < 16
    ensures ALPHABET[i] != ALPHABET[j]
  {
  }

  lemma LastLettersDiffer(i: nat, j: nat)
    requires 16 <= i < j < 32
    ensures ALPHABET[i] != ALPHABET[j]
  {
  }

  lemma HalvesDiffer(i: nat, j: nat)
    requires i < 16 <= j < 32
    ensures ALPHABET[i] != ALPHABET[j]
  {
  }

  lemma LettersDiffer(i: nat, j: nat)
    requires i < 32 && j < 32 && ALPHABET[i] == ALPHABET[j]
    ensures i == j
  {
    if i < j < 16 { FirstLettersDiffer(i, j); }
    if j < i < 16 { FirstLettersDiffer(j, i); }
    if 16 <= i < j { LastLettersDiffer(i, j); }
    if 16 <= j < i { LastLettersDiffer(j, i); }
    if i < 16 <= j { HalvesDiffer(i, j); }
    if j < 16 <= i { HalvesDiffer(j, i); }
  }

  /** Every symbol has a letter. */
  lemma LetterOf(v: Word) returns (c: char)
    requires IsSymbol(v)
    ensures c in ALPHABET && ValueOf(c) == v
  {
    hide NumberOf, IsSymbol;
    var i := NumberOfSymbol(v);
    c := ALPHABET[i];
    LettersDiffer(i, IndexOf(ALPHABET, c));
  }

  ghost predicate IsLetter(c: char) { c in ALPHABET }

  ghost predicate Spells(s: string, vs: seq<Word>) {
    |s| == |vs| && forall i :: 0 <= i < |vs| ==> IsLetter(s[i]) && ValueOf(s[i]) == vs[i]
  }

  lemma SpellTogether(s: string, vs: seq<Word>, t: string, ws: seq<Word>)
    requires Spells(s, vs) && Spells(t, ws)
    ensures Spells(s + t, vs + ws)
  {
    hide ValueOf, IsLetter;
  }

  lemma NothingSpells()
    ensures Spells("", [])
  {
  }

  lemma LetterSpells(c: char)
    requires c in ALPHABET
    ensures Spells([c], [ValueOf(c)])
  {
    hide ValueOf;
  }

  /** Every word of letters spells some symbols, and every list of symbols can be spelled. */
  lemma {:induction false} SpelledBy(s: string) returns (vs: seq<Word>)
    requires forall i :: 0 <= i < |s| ==> IsLetter(s[i])
    ensures Spells(s, vs)
  {
    hide Spells, IsLetter;
    if s == "" {
      vs := [];
      NothingSpells();
    } else {
      var n := |s| - 1;
      var front := SpelledBy(s[..n]);
      var v := LetterHasValue(s[n]);
      vs := front + [v];
      SpellTogether(s[..n], front, [s[n]], [v]);
      assert s == s[..n] + [s[n]];
    }
  }

  lemma LetterHasValue(c: char) returns (v: Word)
    requires IsLetter(c)
    ensures Spells([c], [v])
  {
    v := ValueOf(c);
    LetterSpells(c);
  }

  lemma {:induction false} LettersOf(vs: seq<Word>) returns (s: string)
    requires Symbols(vs)
    ensures Spells(s, vs)
  {
    hide Spells, ValueOf, IsSymbol;
    if vs == [] {
      s := "";
      NothingSpells();
    } else {
      var n := |vs| - 1;
      var front := LettersOf(vs[..n]);
      var c := LetterOf(vs[n]);
      LetterSpells(c);
      s := front + [c];
      SpellTogether(front, vs[..n], [c], [vs[n]]);
      assert vs == vs[..n] + [vs[n]];
    }
  }

  lemma AddressSpells(data: string, vs: seq<Word>)
    requires |data| == 38 && Spells(data, vs)
    ensures WellShaped("xtc1" + data) && Values("xtc1" + data) == vs
  {
    hide ValueOf;
    var address := "xtc1" + data;
    assert address[..4] == "xtc1" && address[4..] == data;
    assert forall i :: 0 <= i < 38 ==> address[4 + i] == data[i];
    assert forall i :: 4 <= i < 42 ==> address[i] == data[i - 4];
  }

  /** Any 32 letters can be completed to a valid address; by ChecksumIsUnique in one way only. */
  lemma EveryPayloadCompletes(payload: string)
    requires |payload| == 32 && forall i :: 0 <= i < 32 ==> payload[i] in ALPHABET
    ensures exists checksum :: IsValid("xtc1" + (payload + checksum))
  {
    hide Fold, Pieces, Values, Spells, Plus, WellShaped;
    assert forall i :: 0 <= i < 32 ==> IsLetter(payload[i]);
    var vs := SpelledBy(payload);
    var front := PREFIX + vs;
    var d := Pieces(Plus(Fold(Fold(1, front), [0, 0, 0, 0, 0, 0]), 1));
    ReachesOne(Fold(1, front), d);
    var checksum := LettersOf(d);
    SpellTogether(payload, vs, checksum, d);
    SpellsAlike(checksum, d);
    AddressSpells(payload + checksum, vs + d);
    FoldConcat(1, front, d);
    assert PREFIX + (vs + d) == front + d;
    assert IsValid("xtc1" + (payload + checksum));
  }

  lemma SpellsAlike(s: string, vs: seq<Word>)
    requires Spells(s, vs)
    ensures |s| == |vs|
  {
  }

  /** A payload has at most one valid 6-symbol checksum. */
  lemma ChecksumIsUnique(a: string, b: string)
    requires IsValid(a) && IsValid(b) && a[..36] == b[..36]
    ensures a == b
  {
    if a != b {
      assert forall i :: 0 <= i < 36 ==> a[i] == a[..36][i] && b[i] == b[..36][i];
      BurstInvalidates(a, b, 36);
    }
  }

  // --- The constants ---

  /** The prefix symbols are the high bits of "xtc", a zero, and its low bits. */
  lemma PrefixSpellsXtc(i: nat)
    requires i < 3
    ensures |PREFIX| == 7 && PREFIX[3] == 0
    ensures PREFIX[i] == NumberOf("xtc"[i] as int / 32) && PREFIX[4 + i] == NumberOf("xtc"[i] as int % 32)
  {
    NumberIs(3, 3);
    NumberIs(24, 24);
    NumberIs(20, 20);
  }

  lemma NumberIs(i: nat, v: bv5)
    requires v as int == i
    ensures i < 32 && NumberOf(i) == v as Word
  {
    Bv5RoundTrip(v);
  }

  lemma LetterIs(c: char, i: nat, v: bv5)
    requires i < 32 && ALPHABET[i] == c && v as int == i
    ensures c in ALPHABET && ValueOf(c) == v as Word
  {
    hide NumberOf, IsSymbol;
    LettersDiffer(i, IndexOf(ALPHABET, c));
    NumberIs(i, v);
  }

  lemma FoldNine(s: Word, a: Word, b: Word, c: Word, d: Word, e: Word, f: Word, g: Word, h: Word, i: Word)
    ensures Fold(s, [a, b, c, d, e, f, g, h, i])
            == Step(Step(Step(Step(Step(Step(Step(Step(Step(s, a), b), c), d), e), f), g), h), i)
  {
    hide Step, Fold;
    FoldThree(s, a, b, c);
    FoldThree(Fold(s, [a, b, c]), d, e, f);
    FoldThree(Fold(s, [a, b, c, d, e, f]), g, h, i);
    FoldConcat(s, [a, b, c], [d, e, f]);
    FoldConcat(s, [a, b, c, d, e, f], [g, h, i]);
    assert [a, b, c] + [d, e, f] == [a, b, c, d, e, f];
    assert [a, b, c, d, e, f] + [g, h, i] == [a, b, c, d, e, f, g, h, i];
  }

  lemma GatesAre(top: Word)
    ensures Gate0(top) == (if top & 1 != 0 then 0x3b6a57b2 else 0)
    ensures Gate1(top) == (if top & 2 != 0 then 0x26508e6d else 0)
    ensures Gate2(top) == (if top & 4 != 0 then 0x1ea119fa else 0)
    ensures Gate3(top) == (if top & 8 != 0 then 0x3d4233dd else 0)
    ensures Gate4(top) == (if top & 16 != 0 then 0x2a1462b3 else 0)
  {
  }

  lemma PlusIs(a: Word, b: Word)
    ensures Plus(a, b) == a ^ b
  {
  }

  /** What is fed back, and one step, on bits alone, to follow them with numbers. */
  predicate IsFedBack(top: Word, f: Word) {
    f == ((((if top & 1 != 0 then 0x3b6a57b2 else 0) ^ (if top & 2 != 0 then 0x26508e6d else 0))
           ^ (if top & 4 != 0 then 0x1ea119fa else 0)) ^ (if top & 8 != 0 then 0x3d4233dd else 0))
         ^ (if top & 16 != 0 then 0x2a1462b3 else 0)
  }

  lemma FeedbackIs(top: Word, f: Word)
    requires IsFedBack(top, f)
    ensures Feedback(top) == f
  {
    hide Plus, Gate0, Gate1, Gate2, Gate3, Gate4;
    GatesAre(top);
    var g2, g3, g4 := Gate2(top), Gate3(top), Gate4(top);
    PlusIs(Gate0(top), Gate1(top));
    var s1 := Plus(Gate0(top), Gate1(top));
    PlusIs(s1, g2);
    PlusIs(Plus(s1, g2), g3);
    PlusIs(Plus(Plus(s1, g2), g3), g4);
  }

  lemma OneStep(chk: Word, v: Word, f: Word, r: Word)
    requires IsFedBack(Top(chk), f) && r == Plus(Plus(Shifted(chk), v), f)
    ensures Step(chk, v) == r
  {
    hide Plus, Feedback, Shifted, Top, IsFedBack;
    FeedbackIs(Top(chk), f);
  }

  lemma Part0()
    ensures Fold(0x1, [3, 3, 3, 0, 24, 20, 3, 0, 0]) == 0x10fee359
  {
    hide Fold, Step;
    FoldNine(0x1, 3, 3, 3, 0, 24, 20, 3, 0, 0);
    OneStep(0x1, 3, 0x0, 0x23);
    OneStep(0x23, 3, 0x0, 0x463);
    OneStep(0x463, 3, 0x0, 0x8c63);
    OneStep(0x8c63, 0, 0x0, 0x118c60);
    OneStep(0x118c60, 24, 0x0, 0x2318c18);
    OneStep(0x2318c18, 20, 0x3b6a57b2, 0x3d5bd4a6);
    OneStep(0x3d5bd4a6, 3, 0x2fa7c6f9, 0x4dd523a);
    OneStep(0x4dd523a, 0, 0x26508e6d, 0x3dfac92d);
    OneStep(0x3dfac92d, 0, 0x2fa7c6f9, 0x10fee359);
  }

  lemma Part1()
    ensures Fold(0x10fee359, [0, 0, 0, 0, 0, 0, 0, 0, 0]) == 0x2879bf93
  {
    hide Fold, Step;
    FoldNine(0x10fee359, 0, 0, 0, 0, 0, 0, 0, 0, 0);
    OneStep(0x10fee359, 0, 0x3d4233dd, 0x229e58fd);
    OneStep(0x229e58fd, 0, 0x117e3501, 0x2b52aa1);
    OneStep(0x2b52aa1, 0, 0x3b6a57b2, 0x2dcf0392);
    OneStep(0x2dcf0392, 0, 0x12e5f524, 0x2b058764);
    OneStep(0x2b058764, 0, 0xfdf2cfb, 0x2f6fc07b);
    OneStep(0x2f6fc07b, 0, 0x298fa296, 0x477adf6);
    OneStep(0x477adf6, 0, 0x26508e6d, 0x28a530ad);
    OneStep(0x28a530ad, 0, 0x34b57b49, 0x20136ee9);
    OneStep(0x20136ee9, 0, 0x2a1462b3, 0x2879bf93);
  }

  lemma Part2()
    ensures Fold(0x2879bf93, [0, 0, 0, 0, 0, 0, 0, 0, 0]) == 0x2aa93d99
  {
    hide Fold, Step;
    FoldNine(0x2879bf93, 0, 0, 0, 0, 0, 0, 0, 0, 0);
    OneStep(0x2879bf93, 0, 0x34b57b49, 0x3b828929);
    OneStep(0x3b828929, 0, 0x329d1f26, 0x2cc3a06);
    OneStep(0x2cc3a06, 0, 0x3b6a57b2, 0x22ed1772);
    OneStep(0x22ed1772, 0, 0x117e3501, 0xcdcdb41);
    OneStep(0xcdcdb41, 0, 0x38f19797, 0x236affb7);
    OneStep(0x236affb7, 0, 0x117e3501, 0x3c21c3e1);
    OneStep(0x3c21c3e1, 0, 0x2fa7c6f9, 0x2b9fbad9);
    OneStep(0x2b9fbad9, 0, 0xfdf2cfb, 0x3c2877db);
    OneStep(0x3c2877db, 0, 0x2fa7c6f9, 0x2aa93d99);
  }

  lemma Part3()
    ensures Fold(0x2aa93d99, [0, 0, 0, 0, 0, 0, 0, 0, 0]) == 0x1b9bb145
  {
    hide Fold, Step;
    FoldNine(0x2aa93d99, 0, 0, 0, 0, 0, 0, 0, 0, 0);
    OneStep(0x2aa93d99, 0, 0xfdf2cfb, 0x1af89fdb);
    OneStep(0x1af89fdb, 0, 0x18897d95, 0x79a86f5);
    OneStep(0x79a86f5, 0, 0x1d3ad9df, 0x2e6a077f);
    OneStep(0x2e6a077f, 0, 0x298fa296, 0x24cf4d76);
    OneStep(0x24cf4d76, 0, 0xc44ecde, 0x15ad421e);
    OneStep(0x15ad421e, 0, 0x1b12bdb0, 0x2ebafe70);
    OneStep(0x2ebafe70, 0, 0x298fa296, 0x3ed06c96);
    OneStep(0x3ed06c96, 0, 0x14cd914b, 0xec0038b);
    OneStep(0xec0038b, 0, 0x39bc025, 0x1b9bb145);
  }

  lemma Part4()
    ensures Fold(0x1b9bb145, [0, 0, 0, 24, 29, 26, 17, 29, 23]) == 0x1
  {
    hide Fold, Step;
    FoldNine(0x1b9bb145, 0, 0, 0, 24, 29, 26, 17, 29, 23);
    OneStep(0x1b9bb145, 0, 0x18897d95, 0x2bff5535);
    OneStep(0x2bff5535, 0, 0xfdf2cfb, 0x30358a5b);
    OneStep(0x30358a5b, 0, 0x1756516e, 0x11e71a0e);
    OneStep(0x11e71a0e, 24, 0x3d4233dd, 0x1a17205);
    OneStep(0x1a17205, 29, 0x0, 0x342e40bd);
    OneStep(0x342e40bd, 26, 0x3106df03, 0x34cec8b9);
    OneStep(0x34cec8b9, 17, 0x3106df03, 0x28dfc832);
    OneStep(0x28dfc832, 29, 0x34b57b49, 0x2f4c7d14);
    OneStep(0x2f4c7d14, 23, 0x298fa296, 0x1);
  }

  /** The symbols that an address of account zero is checked by. */
  lemma ZeroAccountFolds()
    ensures Fold(1, [3, 3, 3, 0, 24, 20, 3, 0, 0] + [0, 0, 0, 0, 0, 0, 0, 0, 0] + [0, 0, 0, 0, 0, 0, 0, 0, 0]
                    + [0, 0, 0, 0, 0, 0, 0, 0, 0] + [0, 0, 0, 24, 29, 26, 17, 29, 23]) == 1
  {
    hide Fold;
    Part0();
    Part1();
    Part2();
    Part3();
    Part4();
    var head: seq<Word>, zeros: seq<Word> := [3, 3, 3, 0, 24, 20, 3, 0, 0], [0, 0, 0, 0, 0, 0, 0, 0, 0];
    FoldConcat(1, head, zeros);
    FoldConcat(1, head + zeros, zeros);
    FoldConcat(1, head + zeros + zeros, zeros);
    FoldConcat(1, head + zeros + zeros + zeros, [0, 0, 0, 24, 29, 26, 17, 29, 23]);
  }

  lemma ChecksumLetters()
    ensures Spells("ca63ah", [24, 29, 26, 17, 29, 23])
  {
    hide ValueOf;
    LetterIs('c', 24, 24);
    LetterIs('a', 29, 29);
    LetterIs('6', 26, 26);
    LetterIs('3', 17, 17);
    LetterIs('h', 23, 23);
  }

  lemma ZeroLetters(s: string, vs: seq<Word>)
    requires |s| == |vs| && forall i :: 0 <= i < |s| ==> s[i] == 'q' && vs[i] == 0
    ensures Spells(s, vs)
  {
    hide ValueOf;
    LetterIs('q', 0, 0);
  }

  lemma ZeroSymbols(zeros: seq<Word>)
    requires |zeros| == 32 && forall i :: 0 <= i < 32 ==> zeros[i] == 0
    ensures Fold(1, PREFIX + (zeros + [24, 29, 26, 17, 29, 23])) == 1
  {
    hide Fold;
    ZeroAccountFolds();
    assert PREFIX + (zeros + [24, 29, 26, 17, 29, 23])
        == [3, 3, 3, 0, 24, 20, 3, 0, 0] + [0, 0, 0, 0, 0, 0, 0, 0, 0] + [0, 0, 0, 0, 0, 0, 0, 0, 0]
           + [0, 0, 0, 0, 0, 0, 0, 0, 0] + [0, 0, 0, 24, 29, 26, 17, 29, 23];
  }

  /** The address of account zero, whose letters are all q, has the checksum ca63ah. */
  lemma ZeroAccountIsValid(payload: string)
    requires |payload| == 32 && forall i :: 0 <= i < 32 ==> payload[i] == 'q'
    ensures IsValid("xtc1" + (payload + "ca63ah"))
  {
    hide Fold, Values, WellShaped, Spells;
    var zeros: seq<Word> := seq(32, i => 0);
    ZeroLetters(payload, zeros);
    ChecksumLetters();
    SpellTogether(payload, zeros, "ca63ah", [24, 29, 26, 17, 29, 23]);
    AddressSpells(payload + "ca63ah", zeros + [24, 29, 26, 17, 29, 23]);
    ZeroSymbols(zeros);
  }
}
