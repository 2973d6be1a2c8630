/** Which size lines are read right. The decoder keeps 31 digits of a size and 32 bits of its value. It collects
    digits wherever a segment begins, so a digit in the extension may be taken for one of the size, depending on
    where the stream is cut. */
module ChunkedExtensions {
  import opened ChunkedTransfer

  ghost predicate OneLine(s: string) {
    forall i :: 0 <= i < |s| ==> s[i] != '\r' && s[i] != '\n'
  }

  /** Any line with at least one digit, cut in two behind the digits that the decoder keeps: `size` has all
      digits, or as many as there is room for. */
  ghost predicate IsLine(size: string, extension: string) {
    && AllHex(size) && 0 < |size| <= DIGITS && OneLine(extension)
    && (extension != [] && IsHex(extension[0]) ==> |size| == DIGITS)
  }

  function SizeLine(size: string, extension: string): string {
    size + (extension + CRLF)
  }

  /** The decoder after a line of this size. */
  function LineRead(size: string): Scan
    requires AllHex(size)
  {
    Scan(PhaseOf(Value(size) % WORD), Value(size) % WORD, [], [])
  }

  /** However the line is cut, the digits kept are the same, up to what the word cannot hold. */
  ghost predicate CutFree(size: string, extension: string)
    requires AllHex(size)
  {
    forall segments :: Concat(segments) == SizeLine(size, extension) ==> FedAll(START, segments) == LineRead(size)
  }

  // ----- extensions that do no harm -----

  /** How many digits a string holds. */
  function HexCount(s: string): nat {
    if s == [] then 0 else HexCount(s[..|s| - 1]) + if IsHex(s[|s| - 1]) then 1 else 0
  }

  /** How many digits stand together from `p` on. */
  function HexRun(s: string, p: nat): nat
    decreases |s| - p
  {
    if p < |s| && IsHex(s[p]) then 1 + HexRun(s, p + 1) else 0
  }

  /** All eight digits of the word are `d`, so that shifting in another `d` does not change it. */
  predicate Repeats(v: nat, d: nat) {
    v == d * 0x1111_1111
  }

  /** The digit at `p` repeats those of the size, or is always shifted out again: eight more follow it
      directly, and so few come before it that there is room for them. */
  ghost predicate HarmlessAt(size: string, extension: string, p: nat)
    requires AllHex(size) && p < |extension| && IsHex(extension[p])
  {
    || Repeats(Value(size) % WORD, DigitValue(extension[p]))
    || (HexRun(extension, p) > 8 && |size| + HexCount(extension[..p]) + 8 < DIGITS)
  }

  ghost predicate Harmless(size: string, extension: string)
    requires AllHex(size)
  {
    |size| == DIGITS || forall p :: 0 <= p < |extension| && IsHex(extension[p]) ==> HarmlessAt(size, extension, p)
  }

  // ----- the last digits of a number -----

  /** The last `n` digits of a number. */
  function Lowest(u: nat, n: nat): nat
    decreases n
  {
    if n == 0 then 0 else 16 * Lowest(u / 16, n - 1) + u % 16
  }

  lemma {:induction false} LowestEight(u: nat)
    ensures Lowest(u, 8) == u % WORD
  {
    var high := u / 0x1_0000;
    assert Lowest(u, 8) == 0x1_0000 * Lowest(high, 4) + u % 0x1_0000 by {
      LowestFour(u, 4);
    }
    assert Lowest(high, 4) == high % 0x1_0000 by {
      LowestFour(high, 0);
    }
    Halves(u);
  }

  lemma {:induction false} Halves(u: nat)
    ensures u % WORD == 0x1_0000 * (u / 0x1_0000 % 0x1_0000) + u % 0x1_0000
  {
    var high := u / 0x1_0000;
    assert u == WORD * (high / 0x1_0000) + 0x1_0000 * (high % 0x1_0000) + u % 0x1_0000;
  }

  lemma {:induction false} LowestFour(u: nat, n: nat)
    ensures Lowest(u, n + 4) == 0x1_0000 * Lowest(u / 0x1_0000, n) + u % 0x1_0000
  {
    var a, b, c := u / 16, u / 16 / 16, u / 16 / 16 / 16;
    assert c / 16 == u / 0x1_0000;
    assert Lowest(c, n + 1) == 16 * Lowest(c / 16, n) + c % 16;
    assert Lowest(b, n + 2) == 16 * Lowest(c, n + 1) + b % 16;
    assert Lowest(a, n + 3) == 16 * Lowest(b, n + 2) + a % 16;
  }

  lemma {:induction false} LowestFewer(u: nat, v: nat, n: nat, k: nat)
    requires Lowest(u, n) == Lowest(v, n) && k <= n
    ensures Lowest(u, k) == Lowest(v, k)
    decreases k
  {
    if k == 0 {
    } else {
      LowestFewer(u / 16, v / 16, n - 1, k - 1);
    }
  }

  /** The digit `d`, `n` times. */
  function Row(d: nat, n: nat): nat {
    if n == 0 then 0 else 16 * Row(d, n - 1) + d
  }

  lemma {:induction false} RowEight(d: nat)
    ensures Row(d, 8) == d * 0x1111_1111
  {
    assert Row(d, 1) == d;
    assert Row(d, 2) == d * 0x11;
    assert Row(d, 3) == d * 0x111;
    assert Row(d, 4) == d * 0x1111;
    assert Row(d, 5) == d * 0x1_1111;
    assert Row(d, 6) == d * 0x11_1111;
    assert Row(d, 7) == d * 0x111_1111;
  }

  lemma {:induction false} LowestRow(d: nat, k: nat, n: nat)
    requires d < 16 && n <= k
    ensures Lowest(Row(d, k), n) == Row(d, n)
    decreases n
  {
    if n == 0 {
    } else {
      LowestRow(d, k - 1, n - 1);
    }
  }

  lemma {:induction false} LowestRepeated(u: nat, d: nat, n: nat)
    requires Repeats(u % WORD, d) && d < 16 && n <= 8
    ensures Lowest(u, n) == Row(d, n)
  {
    RowEight(d);
    LowestEight(u);
    LowestRow(d, 8, 8);
    LowestFewer(u, Row(d, 8), 8, n);
    LowestRow(d, 8, n);
  }

  /** The last `n` digits of `digits` are those of `size`. */
  ghost predicate Agree(digits: string, size: string, n: nat)
    requires AllHex(digits) && AllHex(size)
  {
    Lowest(Value(digits), n) == Lowest(Value(size), n)
  }

  lemma {:induction false} AgreeAll(digits: string, size: string)
    requires AllHex(digits) && AllHex(size)
    ensures Agree(digits, size, 8) <==> Value(digits) % WORD == Value(size) % WORD
  {
    LowestEight(Value(digits));
    LowestEight(Value(size));
  }

  /** One digit more agrees exactly when it is the repeated one. */
  lemma {:induction false} AgreeSnoc(digits: string, c: char, size: string, n: nat, d: nat)
    requires AllHex(digits) && IsHex(c) && AllHex(size) && n < 8 && d < 16 && Repeats(Value(size) % WORD, d)
    ensures AllHex(digits + [c])
    ensures Agree(digits + [c], size, n + 1) <==> DigitValue(c) == d && Agree(digits, size, n)
  {
    assert (digits + [c])[..|digits|] == digits;
    RepeatedSnoc(Value(digits), DigitValue(c), Value(size), n, d);
  }

  lemma {:induction false} RepeatedSnoc(u: nat, c: nat, v: nat, n: nat, d: nat)
    requires c < 16 && n < 8 && d < 16 && Repeats(v % WORD, d)
    ensures Lowest(16 * u + c, n + 1) == Lowest(v, n + 1) <==> c == d && Lowest(u, n) == Lowest(v, n)
  {
    LowestSnoc(u, c, n);
    RepeatedNext(v, d, n);
    SameEnds(Lowest(u, n), c, Lowest(v, n), d);
  }

  lemma {:induction false} RepeatedNext(v: nat, d: nat, n: nat)
    requires n < 8 && d < 16 && Repeats(v % WORD, d)
    ensures Lowest(v, n + 1) == 16 * Lowest(v, n) + d
  {
    LowestRepeated(v, d, n);
    LowestRepeated(v, d, n + 1);
  }

  lemma {:induction false} SameEnds(a: nat, c: nat, b: nat, d: nat)
    requires c < 16 && d < 16
    ensures 16 * a + c == 16 * b + d <==> a == b && c == d
  {
  }

  lemma {:induction false} LowestSnoc(u: nat, d: nat, n: nat)
    requires d < 16
    ensures Lowest(16 * u + d, n + 1) == 16 * Lowest(u, n) + d
  {
    assert (16 * u + d) / 16 == u;
  }

  /** Some other digit among the last eight. */
  lemma {:induction false} Disagrees(digits: string, c: char, more: string, size: string, d: nat)
    requires AllHex(digits) && IsHex(c) && AllHex(more) && |more| < 8 && AllHex(size)
    requires d < 16 && Repeats(Value(size) % WORD, d) && DigitValue(c) != d
    ensures AllHex(digits + [c] + more) && !Agree(digits + [c] + more, size, |more| + 1)
    decreases |more|
  {
    if more == [] {
      AgreeSnoc(digits, c, size, 0, d);
      assert digits + [c] + more == digits + [c];
    } else {
      var init, e := more[..|more| - 1], more[|more| - 1];
      Disagrees(digits, c, init, size, d);
      AgreeSnoc(digits + [c] + init, e, size, |more|, d);
      assert digits + [c] + init + [e] == digits + [c] + more;
    }
  }

  lemma {:induction false} OtherSize(digits: string, c: char, more: string, size: string, d: nat)
    requires AllHex(digits) && IsHex(c) && AllHex(more) && |more| < 8 && AllHex(size)
    requires d < 16 && Repeats(Value(size) % WORD, d) && DigitValue(c) != d
    ensures AllHex(digits + [c] + more) && Value(digits + [c] + more) % WORD != Value(size) % WORD
  {
    Disagrees(digits, c, more, size, d);
    AgreeAll(digits + [c] + more, size);
    if Agree(digits + [c] + more, size, 8) {
      LowestFewer(Value(digits + [c] + more), Value(size), 8, |more| + 1);
    }
  }

  /** Shifting in a digit changes a word unless all its digits are that one. */
  lemma {:induction false} ShiftSame(v: nat, d: nat)
    requires v < WORD && d < 16
    ensures (16 * v + d) % WORD == v <==> Repeats(v, d)
  {
    var k := (16 * v + d) / WORD;
    assert 0 <= k < 16;
    assert 16 * v + d == k * WORD + (16 * v + d) % WORD;
    if (16 * v + d) % WORD == v {
      assert 15 * (v - k * 0x1111_1111) == k - d;
    }
  }

  // ----- a harmless line is read alike however it is cut -----

  function Min(a: nat, b: nat): nat {
    if a < b then a else b
  }

  /** How many of the digits now being collected, up to eight, are still to come. */
  function Pending(s: Scan, extension: string, p: nat): nat
    requires |s.digits| <= DIGITS
  {
    if s.phase.Digits? then Min(8, Min(HexRun(extension, p), DIGITS - |s.digits|)) else 0
  }

  /** With `p` bytes of the extension read: whatever has been collected, the digits still to come will have
      shifted all but those of the size out of the last eight. */
  ghost predicate Inside(size: string, extension: string, s: Scan, p: nat)
    requires AllHex(size)
  {
    && p <= |extension| && Sound(s) && s == Scan(s.phase, 0, s.digits, []) && (s.phase.Digits? || s.phase.Extension?)
    && 0 < |s.digits| && |size| <= |s.digits| <= |size| + HexCount(extension[..p])
    && Agree(s.digits, size, 8 - Pending(s, extension, p))
  }

  lemma {:induction false} CountNext(extension: string, p: nat)
    requires p < |extension|
    ensures HexCount(extension[..p + 1]) == HexCount(extension[..p]) + if IsHex(extension[p]) then 1 else 0
  {
    assert extension[..p + 1][..p] == extension[..p];
  }

  lemma {:induction false} CollectInside(size: string, extension: string, s: Scan, p: nat)
    requires IsLine(size, extension) && Harmless(size, extension) && Inside(size, extension, s, p)
    requires p < |extension| && IsHex(extension[p]) && s.phase.Digits? && |s.digits| < DIGITS
    ensures Inside(size, extension, s.(digits := s.digits + [extension[p]]), p + 1)
  {
    var c := extension[p];
    var t := s.(digits := s.digits + [c]);
    CountNext(extension, p);
    var n := 8 - Pending(s, extension, p);
    if Pending(t, extension, p + 1) < 8 {
      assert HarmlessAt(size, extension, p);
      assert Pending(t, extension, p + 1) == Pending(s, extension, p) - 1;
      AgreeSnoc(s.digits, c, size, n, DigitValue(c));
    }
  }

  lemma {:induction false} StepInside(size: string, extension: string, s: Scan, p: nat)
    requires IsLine(size, extension) && Harmless(size, extension) && Inside(size, extension, s, p) && p < |extension|
    ensures Inside(size, extension, Step(s, extension[p]), p + 1)
  {
    CountNext(extension, p);
    if IsHex(extension[p]) && s.phase.Digits? && |s.digits| < DIGITS {
      CollectInside(size, extension, s, p);
    } else {
      assert Step(s, extension[p]) == s.(phase := Extension);
      assert Pending(s, extension, p) == 0;
    }
  }

  lemma {:induction false} TopInside(size: string, extension: string, s: Scan, p: nat)
    requires AllHex(size) && Inside(size, extension, s, p)
    ensures Inside(size, extension, Top(s), p)
  {
    LowestFewer(Value(s.digits), Value(size), 8 - Pending(s, extension, p), 8 - Pending(Top(s), extension, p));
  }

  lemma {:induction false} BeginInside(size: string, extension: string)
    requires IsLine(size, extension)
    ensures Inside(size, extension, Scan(Digits, 0, size, []), 0)
  {
    assert Pending(Scan(Digits, 0, size, []), extension, 0) == 0;
  }

  /** With `k` bytes of the line read. */
  ghost predicate AtByte(size: string, extension: string, s: Scan, k: nat)
    requires AllHex(size)
  {
    if k == 0 then s == START
    else if k < |size| then s == Scan(Digits, 0, size[..k], [])
    else if k <= |size| + |extension| then Inside(size, extension, s, k - |size|)
    else if k == |size| + |extension| + 1 then
      && Sound(s) && s == Scan(s.phase, 0, s.digits, []) && (s.phase.AfterCr? || s.phase.Digits?)
      && s.digits != [] && Agree(s.digits, size, 8)
    else s == LineRead(size)
  }

  lemma {:induction false} SizeStep(size: string, extension: string, s: Scan, k: nat)
    requires IsLine(size, extension) && k < |size| && AtByte(size, extension, s, k)
    ensures Sound(s) && AtByte(size, extension, Step(s, size[k]), k + 1)
  {
    assert size[..k + 1] == size[..k] + [size[k]];
    assert Step(s, size[k]) == Scan(Digits, 0, size[..k + 1], []);
    if k + 1 == |size| {
      assert size[..k + 1] == size;
      BeginInside(size, extension);
    }
  }

  lemma {:induction false} CrStep(size: string, extension: string, s: Scan)
    requires IsLine(size, extension) && Inside(size, extension, s, |extension|)
    ensures Sound(s) && AtByte(size, extension, Step(s, '\r'), |size| + |extension| + 1)
  {
    assert Pending(s, extension, |extension|) == 0;
  }

  lemma {:induction false} LfStep(size: string, extension: string, s: Scan)
    requires IsLine(size, extension) && AtByte(size, extension, s, |size| + |extension| + 1)
    ensures Sound(s) && Step(s, '\n') == LineRead(size)
  {
    AgreeAll(s.digits, size);
  }

  lemma {:induction false} ByteStep(size: string, extension: string, s: Scan, k: nat)
    requires IsLine(size, extension) && Harmless(size, extension) && AtByte(size, extension, s, k)
    requires k < |SizeLine(size, extension)|
    ensures Sound(s) && AtByte(size, extension, Step(s, SizeLine(size, extension)[k]), k + 1)
  {
    if k < |size| {
      SizeStep(size, extension, s, k);
    } else if k < |size| + |extension| {
      assert SizeLine(size, extension)[k] == extension[k - |size|];
      StepInside(size, extension, s, k - |size|);
    } else if k == |size| + |extension| {
      CrStep(size, extension, s);
    } else {
      LfStep(size, extension, s);
    }
  }

  lemma {:induction false} ByteTop(size: string, extension: string, s: Scan, k: nat)
    requires IsLine(size, extension) && AtByte(size, extension, s, k)
    ensures Sound(s) && AtByte(size, extension, Top(s), k)
  {
    if |size| <= k <= |size| + |extension| {
      TopInside(size, extension, s, k - |size|);
    }
  }

  /** `rest` of the line is to come. */
  ghost predicate Before(size: string, extension: string, s: Scan, rest: string)
    requires AllHex(size)
  {
    var line := SizeLine(size, extension);
    |rest| <= |line| && rest == line[|line| - |rest|..] && AtByte(size, extension, s, |line| - |rest|)
  }

  lemma {:induction false} BeforeTop(size: string, extension: string, s: Scan, rest: string)
    requires IsLine(size, extension) && Before(size, extension, s, rest)
    ensures Sound(s) && Before(size, extension, Top(s), rest)
  {
    ByteTop(size, extension, s, |SizeLine(size, extension)| - |rest|);
  }

  lemma {:induction false} BeforeStep(size: string, extension: string, s: Scan, rest: string)
    requires IsLine(size, extension) && Harmless(size, extension) && Before(size, extension, s, rest) && rest != []
    ensures Sound(s) && Before(size, extension, Step(s, rest[0]), rest[1..])
  {
    var line := SizeLine(size, extension);
    var k := |line| - |rest|;
    assert rest[0] == line[k] && rest[1..] == line[k + 1..];
    ByteStep(size, extension, s, k);
  }

  lemma {:induction false} BeforeKept(size: string, extension: string)
    requires IsLine(size, extension) && Harmless(size, extension)
    ensures Kept((s, rest) => Before(size, extension, s, rest))
  {
    var inv := (s, rest) => Before(size, extension, s, rest);
    forall s, rest ensures KeptAt(inv, s, rest) {
      if Before(size, extension, s, rest) {
        BeforeTop(size, extension, s, rest);
        if rest != [] {
          BeforeStep(size, extension, s, rest);
        }
      }
    }
  }

  lemma {:induction false} HarmlessRead(size: string, extension: string, segments: seq<string>)
    requires IsLine(size, extension) && Harmless(size, extension) && Concat(segments) == SizeLine(size, extension)
    ensures FedAll(START, segments) == LineRead(size)
  {
    var line := SizeLine(size, extension);
    assert line[|line| - |line|..] == line && line[|line|..] == [];
    assert Concat(segments) + [] == line;
    BeforeKept(size, extension);
    AllKeeps((s, rest) => Before(size, extension, s, rest), START, segments, []);
    assert Before(size, extension, FedAll(START, segments), []);
  }

  // ----- any other line is misread for some cut -----

  lemma {:induction false} RunConcat(s: Scan, a: string, b: string)
    requires Sound(s)
    ensures Run(s, a + b) == Run(Run(s, a), b)
    decreases |a|
  {
    if a == [] {
      assert a + b == b;
    } else {
      Uncons(a, b);
      RunConcat(Step(s, a[0]), a[1..], b);
    }
  }

  /** Digits with room for them are collected. */
  lemma {:induction false} RunDigits(s: Scan, a: string)
    requires Sound(s) && (s.phase.Digits? || (s.phase.Lead? && a != [])) && AllHex(a) && |s.digits| + |a| <= DIGITS
    ensures Run(s, a) == s.(phase := Digits, digits := s.digits + a)
    decreases |a|
  {
    if a == [] {
      assert s.digits + a == s.digits;
    } else {
      var t := s.(phase := Digits, digits := s.digits + [a[0]]);
      assert Step(s, a[0]) == t;
      RunDigits(t, a[1..]);
      assert s.digits + a == t.digits + a[1..];
    }
  }

  /** Nothing here can be collected. */
  ghost predicate Dropped(digits: string, a: string) {
    OneLine(a) && (a != [] && IsHex(a[0]) ==> |digits| == DIGITS)
  }

  /** In an extension every byte of the line is dropped. */
  lemma {:induction false} RunExtension(s: Scan, a: string)
    requires Sound(s) && (s.phase.Extension? || s.phase.Digits?)
    requires if s.phase.Extension? then OneLine(a) else Dropped(s.digits, a)
    ensures Run(s, a) == if a == [] then s else s.(phase := Extension)
    decreases |a|
  {
    if a == [] {
    } else {
      assert Step(s, a[0]) == s.(phase := Extension);
      RunExtension(s.(phase := Extension), a[1..]);
    }
  }

  lemma {:induction false} RunEnd(s: Scan)
    requires Sound(s) && (s.phase.Digits? || s.phase.Extension?)
    ensures Run(s, CRLF) == SizeRead(s)
  {
    assert CRLF[1..] == ['\n'] && ['\n'][1..] == [];
    var t := Step(s, '\r');
    assert Run(t, ['\n']) == Run(Step(t, '\n'), []);
  }

  /** The decoder has collected these digits and stands at the beginning of a segment. */
  function Holding(digits: string): Scan {
    Scan(Digits, 0, digits, [])
  }

  /** A segment with the size and the beginning of the extension. */
  lemma {:induction false} FirstPiece(size: string, piece: string)
    requires AllHex(size) && 0 < |size| <= DIGITS && Dropped(size, piece)
    ensures Fed(START, size + piece) == Holding(size)
  {
    RunConcat(START, size, piece);
    RunDigits(START, size);
    assert [] + size == size;
    RunExtension(Holding(size), piece);
  }

  /** A segment that begins with digits of the extension. */
  lemma {:induction false} SecondPiece(digits: string, more: string, rest: string)
    requires AllHex(digits) && AllHex(more) && 0 < |digits| && |digits + more| <= DIGITS && Dropped(digits + more, rest)
    ensures Fed(Holding(digits), more + (rest + CRLF)) == LineRead(digits + more)
  {
    var held := Holding(digits + more);
    RunConcat(Holding(digits), more, rest + CRLF);
    RunDigits(Holding(digits), more);
    RunConcat(held, rest, CRLF);
    RunExtension(held, rest);
    RunEnd(Run(held, rest));
  }

  lemma {:induction false} TwoPieces(first: string, second: string)
    ensures FedAll(START, [first, second]) == Fed(Fed(START, first), second)
    ensures Concat([first, second]) == first + second
  {
    assert [first, second][1..] == [second] && [second][1..] == [];
    assert Concat([second]) == second + [];
    assert FedAll(Fed(START, first), [second]) == FedAll(Fed(Fed(START, first), second), []);
  }

  function CutAt(size: string, extension: string, p: nat): seq<string>
    requires p <= |extension|
  {
    [SizeLine(size, extension)[..|size| + p], SizeLine(size, extension)[|size| + p..]]
  }

  /** Cut at `p`, the line is read as one whose size goes on with the digits that stand there. */
  lemma {:induction false} Misread(size: string, extension: string, p: nat, m: nat)
    requires IsLine(size, extension) && 0 < p && p + m <= |extension| && |size| + m <= DIGITS
    requires AllHex(extension[p..p + m]) && Dropped(size + extension[p..p + m], extension[p + m..])
    ensures var segments := CutAt(size, extension, p);
      Concat(segments) == SizeLine(size, extension) && FedAll(START, segments) == LineRead(size + extension[p..p + m])
  {
    var line, k := SizeLine(size, extension), |size| + p;
    var more, rest := extension[p..p + m], extension[p + m..];
    assert line[..k] == size + extension[..p] && line[k..] == more + (rest + CRLF);
    FirstPiece(size, extension[..p]);
    SecondPiece(size, more, rest);
    TwoPieces(line[..k], line[k..]);
    assert line[..k] + line[k..] == line;
  }

  lemma {:induction false} ReadWrong(size: string, extension: string, segments: seq<string>, other: string)
    requires AllHex(size) && AllHex(other) && Value(other) % WORD != Value(size) % WORD
    requires Concat(segments) == SizeLine(size, extension) && FedAll(START, segments) == LineRead(other)
    ensures !CutFree(size, extension)
  {
    assert LineRead(other) != LineRead(size);
  }

  lemma {:induction false} RunHex(s: string, p: nat)
    requires p <= |s|
    ensures p + HexRun(s, p) <= |s| && AllHex(s[p..p + HexRun(s, p)])
    ensures p + HexRun(s, p) < |s| ==> !IsHex(s[p + HexRun(s, p)])
    decreases |s| - p
  {
    if p < |s| && IsHex(s[p]) {
      RunHex(s, p + 1);
      assert s[p..p + HexRun(s, p)] == [s[p]] + s[p + 1..p + 1 + HexRun(s, p + 1)];
    }
  }

  /** The last digit of an extension must repeat those of the size. */
  lemma {:induction false} LastDigitHarms(size: string, extension: string, p: nat)
    requires IsLine(size, extension) && |size| < DIGITS && p < |extension| && IsHex(extension[p])
    requires forall i :: p < i < |extension| ==> !IsHex(extension[i])
    requires !Repeats(Value(size) % WORD, DigitValue(extension[p]))
    ensures !CutFree(size, extension)
  {
    assert extension[p..p + 1] == [extension[p]];
    Misread(size, extension, p, 1);
    OneMore(size, extension[p]);
    ReadWrong(size, extension, CutAt(size, extension, p), size + extension[p..p + 1]);
  }

  lemma {:induction false} OneMore(size: string, c: char)
    requires AllHex(size) && IsHex(c)
    ensures AllHex(size + [c])
    ensures Value(size + [c]) % WORD == Value(size) % WORD <==> Repeats(Value(size) % WORD, DigitValue(c))
  {
    assert (size + [c])[..|size|] == size;
    ShiftedWord(Value(size), DigitValue(c));
    ShiftSame(Value(size) % WORD, DigitValue(c));
  }

  lemma {:induction false} ShiftedWord(u: nat, d: nat)
    ensures (16 * u + d) % WORD == (16 * (u % WORD) + d) % WORD
  {
    assert 16 * u + d == 16 * (u / WORD) * WORD + (16 * (u % WORD) + d);
  }

  /** Any other digit must repeat them too, if no more than seven follow it directly. */
  lemma {:induction false} ShortRunHarms(size: string, extension: string, p: nat, d: nat)
    requires IsLine(size, extension) && p < |extension| && IsHex(extension[p])
    requires HexRun(extension, p) <= 8 && |size| + HexRun(extension, p) <= DIGITS
    requires d < 16 && Repeats(Value(size) % WORD, d) && DigitValue(extension[p]) != d
    ensures !CutFree(size, extension)
  {
    var m := HexRun(extension, p);
    RunHex(extension, p);
    var c, more := extension[p], extension[p + 1..p + m];
    assert extension[p..p + m] == [c] + more;
    OtherSize(size, c, more, size, d);
    assert size + [c] + more == size + extension[p..p + m];
    Misread(size, extension, p, m);
    ReadWrong(size, extension, CutAt(size, extension, p), size + extension[p..p + m]);
  }

  // ----- lines that are not as the standard has them -----

  /** A line feed alone ends a size line too. */
  lemma {:induction false} BareLineFeed(size: string)
    requires AllHex(size) && 0 < |size| <= DIGITS
    ensures Run(START, size + ['\n']) == LineRead(size)
  {
    RunConcat(START, size, ['\n']);
    RunDigits(START, size);
    assert [] + size == size;
    assert Run(Holding(size), ['\n']) == Step(Holding(size), '\n');
  }

  /** A carriage return alone does not end the line: the digits after it go on with the size. */
  lemma {:induction false} LoneReturn(size: string, more: string)
    requires AllHex(size) && size != [] && AllHex(more) && more != [] && |size + more| <= DIGITS
    ensures Run(START, size + (['\r'] + (more + CRLF))) == LineRead(size + more)
  {
    RunConcat(START, size, ['\r'] + (more + CRLF));
    RunDigits(START, size);
    assert [] + size == size;
    assert (['\r'] + (more + CRLF))[1..] == more + CRLF;
    AfterReturn(size, more);
  }

  lemma {:induction false} AfterReturn(size: string, more: string)
    requires AllHex(size) && size != [] && AllHex(more) && more != [] && |size + more| <= DIGITS
    ensures Run(Step(Holding(size), '\r'), more + CRLF) == LineRead(size + more)
  {
    var s := Step(Holding(size), '\r');
    var held := Holding(size + [more[0]]);
    assert s == Holding(size).(phase := AfterCr) && Step(s, more[0]) == held;
    Uncons(more, CRLF);
    RunConcat(held, more[1..], CRLF);
    RunDigits(held, more[1..]);
    assert size + [more[0]] + more[1..] == size + more;
    RunEnd(Holding(size + more));
  }

  /** A line without any digit ends the body. */
  lemma {:induction false} NoSize(extension: string)
    requires OneLine(extension) && extension != [] && !IsHex(extension[0])
    ensures Run(START, extension + CRLF) == SizeSeen(0)
  {
    var s := START.(phase := Extension);
    Uncons(extension, CRLF);
    assert Step(START, extension[0]) == s;
    RunConcat(s, extension[1..], CRLF);
    RunExtension(s, extension[1..]);
    RunEnd(s);
  }

  /** The line end before a size line may be missing, or be a line feed alone. */
  lemma {:induction false} LeadOptional(content: string, line: string)
    requires line != [] && line[0] != '\r' && line[0] != '\n'
    ensures var s := Scan(Lead, 0, [], content);
      Run(s, line) == Run(s, ['\n'] + line) == Run(s, CRLF + line)
  {
    var s := Scan(Lead, 0, [], content);
    assert (['\n'] + line)[1..] == line && (CRLF + line)[1..] == ['\n'] + line;
    assert Step(s, line[0]) == Step(s.(phase := Digits), line[0]);
    assert Run(s, ['\n'] + line) == Run(s.(phase := Digits), line);
    assert Run(s, CRLF + line) == Run(s.(phase := LeadLf), ['\n'] + line);
  }

  // ----- cutting before every byte -----

  function Collect(digits: string, c: char): string {
    if IsHex(c) && |digits| < DIGITS then digits + [c] else digits
  }

  /** What is collected when every byte is a segment. */
  function Collected(digits: string, s: string): string
    decreases |s|
  {
    if s == [] then digits else Collected(Collect(digits, s[0]), s[1..])
  }

  function Singles(s: string): seq<string> {
    if s == [] then [CRLF] else [[s[0]]] + Singles(s[1..])
  }

  lemma {:induction false} SingleFed(digits: string, c: char)
    requires AllHex(digits) && 0 < |digits| <= DIGITS && c != '\r' && c != '\n'
    ensures Fed(Holding(digits), [c]) == Holding(Collect(digits, c))
  {
    assert Run(Holding(digits), [c]) == Step(Holding(digits), c);
  }

  lemma {:induction false} SinglesRead(digits: string, s: string)
    requires AllHex(digits) && 0 < |digits| <= DIGITS && OneLine(s)
    ensures AllHex(Collected(digits, s))
    ensures Concat(Singles(s)) == s + CRLF && FedAll(Holding(digits), Singles(s)) == LineRead(Collected(digits, s))
    decreases |s|
  {
    if s == [] {
      OnlyEnd(digits);
    } else {
      SingleFed(digits, s[0]);
      SinglesRead(Collect(digits, s[0]), s[1..]);
      OneFirst(Holding(digits), [s[0]], Singles(s[1..]));
      assert [s[0]] + (s[1..] + CRLF) == s + CRLF;
    }
  }

  lemma {:induction false} OnlyEnd(digits: string)
    requires AllHex(digits) && 0 < |digits| <= DIGITS
    ensures Concat([CRLF]) == CRLF && FedAll(Holding(digits), [CRLF]) == LineRead(digits)
  {
    RunEnd(Holding(digits));
    OneFirst(Holding(digits), CRLF, []);
    assert CRLF + [] == CRLF;
  }

  lemma {:induction false} OneFirst(s: Scan, first: string, others: seq<string>)
    requires Sound(s)
    ensures FedAll(s, [first] + others) == FedAll(Fed(s, first), others)
    ensures Concat([first] + others) == first + Concat(others)
  {
    assert ([first] + others)[1..] == others;
  }

  lemma {:induction false} CollectedConcat(digits: string, a: string, b: string)
    ensures Collected(digits, a + b) == Collected(Collected(digits, a), b)
    decreases |a|
  {
    if a == [] {
      assert a + b == b;
    } else {
      Uncons(a, b);
      CollectedConcat(Collect(digits, a[0]), a[1..], b);
    }
  }

  lemma {:induction false} CollectedGrows(digits: string, s: string)
    requires AllHex(digits) && |digits| <= DIGITS
    ensures var all := Collected(digits, s);
      AllHex(all) && digits <= all && |all| == Min(DIGITS, |digits| + HexCount(s))
    decreases |s|
  {
    if s == [] {
    } else {
      CollectedGrows(Collect(digits, s[0]), s[1..]);
      CountConcat([s[0]], s[1..]);
      assert s == [s[0]] + s[1..];
    }
  }

  lemma {:induction false} CountConcat(a: string, b: string)
    ensures HexCount(a + b) == HexCount(a) + HexCount(b)
    decreases |b|
  {
    if b == [] {
      assert a + b == a;
    } else {
      assert (a + b)[..|a + b| - 1] == a + b[..|b| - 1];
      CountConcat(a, b[..|b| - 1]);
    }
  }

  /** A place before `p` with a given number of digits in between. */
  lemma {:induction false} PlaceBefore(s: string, p: nat, count: nat) returns (q: nat)
    requires 0 < p <= |s| && !IsHex(s[0]) && count <= HexCount(s[..p])
    ensures 0 < q <= p && HexCount(s[q..p]) == count
  {
    q := p;
    while HexCount(s[q..p]) != count
      invariant 0 < q <= p && HexCount(s[q..p]) <= count
      decreases q
    {
      assert s[..p] == s[..q] + s[q..p];
      CountConcat(s[..q], s[q..p]);
      assert s[..1][..0] == [] && HexCount(s[..1]) == 0;
      assert s[q - 1..p] == [s[q - 1]] + s[q..p];
      CountConcat([s[q - 1]], s[q..p]);
      q := q - 1;
    }
  }

  lemma {:induction false} SinglesFrom(size: string, extension: string, q: nat)
    requires IsLine(size, extension) && 0 < q <= |extension|
    ensures AllHex(Collected(size, extension[q..]))
    ensures var segments := [size + extension[..q]] + Singles(extension[q..]);
      && Concat(segments) == SizeLine(size, extension)
      && FedAll(START, segments) == LineRead(Collected(size, extension[q..]))
  {
    var first := size + extension[..q];
    FirstPiece(size, extension[..q]);
    SinglesRead(size, extension[q..]);
    OneFirst(START, first, Singles(extension[q..]));
    assert first + (extension[q..] + CRLF) == SizeLine(size, extension);
  }

  /** A digit with so many before it that no more than seven can be collected after it. */
  lemma {:induction false} LateDigitHarms(size: string, extension: string, p: nat, d: nat)
    requires IsLine(size, extension) && |size| < DIGITS && p < |extension| && IsHex(extension[p])
    requires |size| + HexCount(extension[..p]) + 8 >= DIGITS
    requires d < 16 && Repeats(Value(size) % WORD, d) && DigitValue(extension[p]) != d
    ensures !CutFree(size, extension)
  {
    var q := PlaceBefore(extension, p, if |size| + 8 < DIGITS then DIGITS - 8 - |size| else 0);
    var before, more := CollectedPast(size, extension, q, p);
    OtherSize(before, extension[p], more, size, d);
    SinglesFrom(size, extension, q);
    ReadWrong(size, extension, [size + extension[..q]] + Singles(extension[q..]), before + [extension[p]] + more);
  }

  lemma {:induction false} CollectedPast(size: string, extension: string, q: nat, p: nat)
      returns (before: string, more: string)
    requires AllHex(size) && q <= p < |extension| && IsHex(extension[p])
    requires DIGITS <= |size| + HexCount(extension[q..p]) + 8 && |size| + HexCount(extension[q..p]) < DIGITS
    ensures AllHex(before) && AllHex(more) && |more| < 8
    ensures Collected(size, extension[q..]) == before + [extension[p]] + more
  {
    var c, rest := extension[p], extension[p + 1..];
    before := Collected(size, extension[q..p]);
    CollectedGrows(size, extension[q..p]);
    assert extension[q..] == extension[q..p] + ([c] + rest);
    CollectedThrough(size, extension[q..p], c, rest);
    more := CollectedMore(before + [c], rest);
  }

  lemma {:induction false} CollectedThrough(digits: string, a: string, c: char, b: string)
    ensures Collected(digits, a + ([c] + b)) == Collected(Collect(Collected(digits, a), c), b)
  {
    CollectedConcat(digits, a, [c] + b);
    assert ([c] + b)[1..] == b;
  }

  lemma {:induction false} CollectedMore(digits: string, s: string) returns (more: string)
    requires AllHex(digits) && |digits| <= DIGITS
    ensures AllHex(more) && Collected(digits, s) == digits + more && |digits + more| <= DIGITS
  {
    CollectedGrows(digits, s);
    more := Collected(digits, s)[|digits|..];
  }

  lemma {:induction false} LastDigit(extension: string, p: nat) returns (i: nat)
    requires p < |extension| && IsHex(extension[p])
    ensures p <= i < |extension| && IsHex(extension[i]) && forall j :: i < j < |extension| ==> !IsHex(extension[j])
  {
    i := |extension| - 1;
    while !IsHex(extension[i])
      invariant p <= i < |extension| && forall j :: i < j < |extension| ==> !IsHex(extension[j])
      decreases i
    {
      i := i - 1;
    }
  }

  lemma {:induction false} OtherwiseMisread(size: string, extension: string)
    requires IsLine(size, extension) && !Harmless(size, extension)
    ensures !CutFree(size, extension)
  {
    var p :| 0 <= p < |extension| && IsHex(extension[p]) && !HarmlessAt(size, extension, p);
    var last := LastDigit(extension, p);
    var d := DigitValue(extension[last]);
    if !Repeats(Value(size) % WORD, d) {
      LastDigitHarms(size, extension, last);
    } else if |size| + HexCount(extension[..p]) + 8 >= DIGITS {
      LateDigitHarms(size, extension, p, d);
    } else {
      ShortRunHarms(size, extension, p, d);
    }
  }

  /** What is read of a size line does not depend on how it is cut exactly when its extension is harmless. */
  lemma {:induction false} CutIndependent(size: string, extension: string)
    requires IsLine(size, extension)
    ensures CutFree(size, extension) <==> Harmless(size, extension)
  {
    if Harmless(size, extension) {
      forall segments | Concat(segments) == SizeLine(size, extension)
        ensures FedAll(START, segments) == LineRead(size)
      {
        HarmlessRead(size, extension, segments);
      }
    } else {
      OtherwiseMisread(size, extension);
    }
  }

  // ----- lines that are read right -----

  /** Any size line: a number of one or more digits, and an extension, which does not begin with a digit. */
  ghost predicate IsSizeLine(number: string, extension: string) {
    AllHex(number) && number != [] && OneLine(extension) && (extension == [] || !IsHex(extension[0]))
  }

  /** The decoder after a line with this size. */
  function SizeSeen(size: nat): Scan {
    Scan(PhaseOf(size), size, [], [])
  }

  /** However the line is cut, its number is read. */
  ghost predicate ReadsRight(number: string, extension: string)
    requires AllHex(number)
  {
    forall segments :: Concat(segments) == SizeLine(number, extension) ==>
      FedAll(START, segments) == SizeSeen(Value(number))
  }

  /** What the line has behind the digits there is room for. */
  function Behind(number: string, extension: string): string {
    number[|Leading(number)|..] + extension
  }

  lemma {:induction false} BehindLine(number: string, extension: string)
    requires IsSizeLine(number, extension)
    ensures IsLine(Leading(number), Behind(number, extension))
    ensures SizeLine(Leading(number), Behind(number, extension)) == SizeLine(number, extension)
  {
    assert number == Leading(number) + number[|Leading(number)|..];
  }

  /** Fewer digits denote a number that is at least sixteen times smaller. */
  lemma {:induction false} ValueGrows(number: string, k: nat)
    requires AllHex(number) && k <= |number|
    ensures Value(number[..k]) <= Value(number) && (k < |number| ==> 16 * Value(number[..k]) <= Value(number))
    decreases |number|
  {
    if k == |number| {
      assert number[..k] == number;
    } else {
      var init := number[..|number| - 1];
      ValueGrows(init, k);
      assert init[..k] == number[..k];
    }
  }

  /** Cut behind the digits, a line gives the size they denote, whatever the extension. */
  lemma {:induction false} CutBehind(size: string, extension: string)
    requires IsLine(size, extension)
    ensures Concat([size, extension + CRLF]) == SizeLine(size, extension)
    ensures FedAll(START, [size, extension + CRLF]) == LineRead(size)
  {
    FirstPiece(size, []);
    assert size + [] == size;
    SecondPiece(size, [], extension);
    assert [] + (extension + CRLF) == extension + CRLF;
    TwoPieces(size, extension + CRLF);
  }

  /** The number fits the word, and the digits kept denote it. */
  ghost predicate Representable(number: string)
    requires AllHex(number)
  {
    Value(number) < WORD && Value(Leading(number)) == Value(number)
  }

  lemma {:induction false} RightRepresentable(number: string, extension: string)
    requires IsSizeLine(number, extension) && ReadsRight(number, extension)
    ensures Representable(number)
  {
    var size, rest := Leading(number), Behind(number, extension);
    BehindLine(number, extension);
    CutBehind(size, rest);
    assert SizeSeen(Value(number)) == LineRead(size);
    ValueGrows(number, |size|);
    assert number[..|size|] == size;
  }

  lemma {:induction false} SameReading(number: string, extension: string)
    requires IsSizeLine(number, extension) && Representable(number)
    ensures ReadsRight(number, extension) <==> CutFree(Leading(number), Behind(number, extension))
  {
    BehindLine(number, extension);
    assert LineRead(Leading(number)) == SizeSeen(Value(number));
  }

  /** A size line is read right however it is cut exactly when its number is below 2^32, the first 31 digits
      denote it, and what follows them is harmless. */
  lemma {:induction false} ReadsRightExact(number: string, extension: string)
    requires IsSizeLine(number, extension)
    ensures ReadsRight(number, extension) <==>
      Representable(number) && Harmless(Leading(number), Behind(number, extension))
  {
    if ReadsRight(number, extension) {
      RightRepresentable(number, extension);
    }
    if Representable(number) {
      SameReading(number, extension);
      BehindLine(number, extension);
      CutIndependent(Leading(number), Behind(number, extension));
    }
  }

  // ----- what that comes to -----

  /** Of more than 31 digits only zeros are read right. */
  lemma {:induction false} LongExact(number: string, extension: string)
    requires IsSizeLine(number, extension) && |number| > DIGITS
    ensures ReadsRight(number, extension) <==> Value(number) == 0
  {
    ReadsRightExact(number, extension);
    ValueGrows(number, DIGITS);
  }

  /** Any other number of more than 31 digits is taken for that of the first 31, however the line is cut. */
  lemma {:induction false} CutShort(number: string, extension: string, segments: seq<string>)
    requires IsSizeLine(number, extension) && |number| > DIGITS && Concat(segments) == SizeLine(number, extension)
    ensures FedAll(START, segments) == LineRead(Leading(number))
  {
    BehindLine(number, extension);
    HarmlessRead(Leading(number), Behind(number, extension), segments);
  }

  function Zeros(n: nat): (s: string)
    ensures |s| == n && forall i :: 0 <= i < n ==> s[i] == '0'
  {
    seq(n, _ => '0')
  }

  lemma {:induction false} ZeroValue(s: string)
    requires forall i :: 0 <= i < |s| ==> s[i] == '0'
    ensures AllHex(s) && Value(s) == 0
  {
    if s == [] {
    } else {
      ZeroValue(s[..|s| - 1]);
    }
  }

  /** A chunk of up to fifteen bytes whose size is written with 31 leading zeros is taken for the end of the body,
      however the line is cut. */
  lemma {:induction false} ZerosMisread(c: char, segments: seq<string>)
    requires IsHex(c) && c != '0' && Concat(segments) == SizeLine(Zeros(DIGITS) + [c], [])
    ensures AllHex(Zeros(DIGITS) + [c]) && 0 < Value(Zeros(DIGITS) + [c]) == DigitValue(c)
    ensures FedAll(START, segments) == SizeSeen(0)
  {
    var number := Zeros(DIGITS) + [c];
    ZeroValue(Zeros(DIGITS));
    assert number[..DIGITS] == Zeros(DIGITS);
    CutShort(number, [], segments);
  }

  /** So is a chunk of 2^32 bytes. */
  lemma {:induction false} WrapMisread(segments: seq<string>)
    requires Concat(segments) == SizeLine("1" + Zeros(8), [])
    ensures AllHex("1" + Zeros(8)) && Value("1" + Zeros(8)) == WORD
    ensures FedAll(START, segments) == SizeSeen(0)
  {
    OneZeros(8);
    PowerEight();
    HarmlessRead("1" + Zeros(8), [], segments);
  }

  lemma {:induction false} OneZeros(n: nat)
    ensures AllHex("1" + Zeros(n)) && Value("1" + Zeros(n)) == Power(n)
  {
    if n == 0 {
      assert "1" + Zeros(0) == "1" && "1"[..0] == "";
    } else {
      OneZeros(n - 1);
      assert ("1" + Zeros(n))[..|Zeros(n)|] == "1" + Zeros(n - 1);
    }
  }

  ghost predicate NoDigit(extension: string) {
    forall p :: 0 <= p < |extension| ==> !IsHex(extension[p])
  }

  /** Most numbers admit no digit in the extension: all but those of 31 digits and those whose last eight digits
      are all alike. */
  lemma {:induction false} OrdinaryExact(number: string, extension: string)
    requires IsSizeLine(number, extension) && |number| < DIGITS
    requires forall d :: 0 <= d < 16 ==> !Repeats(Value(number) % WORD, d)
    ensures ReadsRight(number, extension) <==> Value(number) < WORD && NoDigit(extension)
  {
    ReadsRightExact(number, extension);
    assert Behind(number, extension) == extension;
    if !NoDigit(extension) {
      var p :| 0 <= p < |extension| && IsHex(extension[p]);
      var last := LastDigit(extension, p);
      assert HexRun(extension, last) == 1;
      assert !HarmlessAt(number, extension, last);
    }
  }

  /** The line of the last chunk admits zeros, and no other digit that stands in a row of at most eight. */
  lemma {:induction false} LastChunkExact(number: string, extension: string)
    requires IsSizeLine(number, extension) && |number| < DIGITS && Value(number) == 0
    requires forall p :: 0 <= p < |extension| ==> HexRun(extension, p) <= 8
    ensures ReadsRight(number, extension) <==>
      forall p :: 0 <= p < |extension| && IsHex(extension[p]) ==> extension[p] == '0'
  {
    ReadsRightExact(number, extension);
    assert Behind(number, extension) == extension;
    forall p | 0 <= p < |extension| && IsHex(extension[p])
      ensures HarmlessAt(number, extension, p) <==> extension[p] == '0'
    {
    }
  }

  /** The end of a body, cut before the digit of an extension, is taken for a chunk of that many bytes. */
  lemma {:induction false} EndMisread(c: char)
    requires IsHex(c) && c != '0'
    ensures Concat(CutAt("0", [';', c], 1)) == SizeLine("0", [';', c])
    ensures FedAll(START, CutAt("0", [';', c], 1)) == Scan(Data, DigitValue(c), [], [])
  {
    var extension := [';', c];
    assert |extension| == 2 && extension[1] == c;
    assert extension[1..2] == [c];
    assert extension[2..] == [];
    Misread("0", extension, 1, 1);
    ZeroThen(c);
  }

  lemma {:induction false} ZeroThen(c: char)
    requires IsHex(c)
    ensures AllHex("0" + [c]) && Value("0" + [c]) == DigitValue(c)
  {
    assert ("0" + [c])[..1] == "0";
    ZeroValue("0");
  }

  /** In a longer row any digit may do no harm: by the end of the row it has been shifted out of the word. */
  lemma {:induction false} ShiftedOut(c: char)
    requires IsHex(c)
    ensures ReadsRight("0", [';', c] + Zeros(8))
  {
    ShiftedRow([';', c] + Zeros(8));
  }

  lemma {:induction false} ShiftedRow(extension: string)
    requires |extension| == 10 && OneLine(extension) && !IsHex(extension[0]) && IsHex(extension[1])
    requires forall i :: 2 <= i < 10 ==> extension[i] == '0'
    ensures ReadsRight("0", extension)
  {
    LongRow(extension);
    FirstCount(extension);
    assert Value("0") == 0 && Leading("0") == "0" && Behind("0", extension) == extension;
    forall p | 0 <= p < |extension| && IsHex(extension[p]) ensures HarmlessAt("0", extension, p) {
    }
    ReadsRightExact("0", extension);
  }

  lemma {:induction false} FirstCount(extension: string)
    requires extension != [] && !IsHex(extension[0])
    ensures HexCount(extension[..1]) == 0
  {
    assert extension[..1][..0] == [];
  }

  lemma {:induction false} LongRow(s: string)
    requires |s| == 10 && forall i :: 1 <= i < 10 ==> IsHex(s[i])
    ensures HexRun(s, 1) == 9
  {
    assert HexRun(s, 9) == 1;
    assert HexRun(s, 8) == 2;
    assert HexRun(s, 7) == 3;
    assert HexRun(s, 6) == 4;
    assert HexRun(s, 5) == 5;
    assert HexRun(s, 4) == 6;
    assert HexRun(s, 3) == 7;
    assert HexRun(s, 2) == 8;
  }
}
