/** The chunked transfer coding of section 4.1 of RFC 7230: the resumable decoder inside
    `getHTTPResponse`, and the encoder of the test server. Bytes are characters.

    The decoder's nested loops are proved equal to a byte-by-byte automaton that is set back to the top
    of the outer loop whenever a new segment arrives. */
module ChunkedTransfer {

  const WORD := 0x1_0000_0000                // unsigned int
  const SIGN := 0x8000_0000                  // the first value that is negative as an int
  const DIGITS := 31                         // sizeof(chunksize_buf) - 1

  // ----- hexadecimal numbers -----

  /** `isxdigit` */
  predicate IsHex(c: char) {
    '0' <= c <= '9' || 'a' <= c <= 'f' || 'A' <= c <= 'F'
  }

  ghost predicate AllHex(s: string) {
    forall i :: 0 <= i < |s| ==> IsHex(s[i])
  }

  function DigitValue(c: char): nat
    requires IsHex(c)
  {
    if '0' <= c <= '9' then c as int - '0' as int
    else if 'a' <= c <= 'f' then c as int - 'a' as int + 10
    else c as int - 'A' as int + 10
  }

  /** The number a string of hexadecimal digits denotes. */
  function Value(s: string): nat
    requires AllHex(s)
  {
    if s == [] then 0 else 16 * Value(s[..|s| - 1]) + DigitValue(s[|s| - 1])
  }

  const LOWER := "0123456789abcdef"
  const UPPER := "0123456789ABCDEF"

  /** The digits are those of the two rows and no others, each worth its place in the row. */
  lemma {:induction false} DigitRows(c: char)
    ensures IsHex(c) <==> c in LOWER || c in UPPER
    ensures IsHex(c) ==> DigitValue(c) < 16 && (c == LOWER[DigitValue(c)] || c == UPPER[DigitValue(c)])
    ensures forall n :: 0 <= n < 16 && (c == LOWER[n] || c == UPPER[n]) ==> IsHex(c) && DigitValue(c) == n
  {
    if '0' <= c <= '9' {
      assert c == LOWER[c as int - '0' as int];
    } else if 'a' <= c <= 'f' {
      assert c == LOWER[c as int - 'a' as int + 10];
    } else if 'A' <= c <= 'F' {
      assert c == UPPER[c as int - 'A' as int + 10];
    }
  }

  function HexDigit(n: nat): (c: char)
    requires n < 16
    ensures IsHex(c) && DigitValue(c) == n
  {
    if n < 10 then ('0' as int + n) as char else ('a' as int + n - 10) as char
  }

  lemma {:induction false} HexDigitRow(n: nat)
    requires n < 16
    ensures HexDigit(n) == LOWER[n]
  {
  }

  /** `%x` */
  function Hex(n: nat): (s: string)
    ensures s != [] && AllHex(s)
  {
    if n < 16 then [HexDigit(n)] else Hex(n / 16) + [HexDigit(n % 16)]
  }

  /** Printing and reading a number in hexadecimal gives the number back. */
  lemma {:induction false} HexValue(n: nat)
    ensures Value(Hex(n)) == n
  {
    var s := Hex(n);
    if n < 16 {
    } else {
      HexValue(n / 16);
      assert s[..|s| - 1] == Hex(n / 16);
    }
  }

  /** `%X` */
  function UpperHex(n: nat): string {
    if n < 16 then [UPPER[n]] else UpperHex(n / 16) + [UPPER[n % 16]]
  }

  /** The same digits, each in either case. */
  ghost predicate SameDigits(s: string, t: string) {
    |s| == |t| && forall i :: 0 <= i < |s| ==> SameDigit(s[i], t[i])
  }

  ghost predicate SameDigit(c: char, d: char) {
    exists n :: 0 <= n < 16 && (c == LOWER[n] || c == UPPER[n]) && (d == LOWER[n] || d == UPPER[n])
  }

  lemma {:induction false} SameDigitValue(c: char, d: char)
    requires SameDigit(c, d)
    ensures IsHex(c) && IsHex(d) && DigitValue(c) == DigitValue(d)
  {
    var n :| 0 <= n < 16 && (c == LOWER[n] || c == UPPER[n]) && (d == LOWER[n] || d == UPPER[n]);
    DigitRows(c);
    DigitRows(d);
  }

  lemma {:induction false} SameDigitsHex(s: string, t: string)
    requires SameDigits(s, t)
    ensures AllHex(s) && AllHex(t)
  {
    forall i | 0 <= i < |s| ensures IsHex(s[i]) && IsHex(t[i]) {
      SameDigitValue(s[i], t[i]);
    }
  }

  /** The case of the digits does not matter. */
  lemma {:induction false} CaseBlind(s: string, t: string)
    requires SameDigits(s, t)
    ensures AllHex(s) && AllHex(t) && Value(s) == Value(t)
  {
    SameDigitsHex(s, t);
    if s == [] {
    } else {
      SameDigitValue(s[|s| - 1], t[|t| - 1]);
      CaseBlind(s[..|s| - 1], t[..|t| - 1]);
    }
  }

  lemma {:induction false} UpperSame(n: nat)
    ensures SameDigits(UpperHex(n), Hex(n))
  {
    HexDigitRow(n % 16);
    assert SameDigit(UPPER[n % 16], HexDigit(n % 16));
    if n < 16 {
    } else {
      UpperSame(n / 16);
    }
  }

  /** A number printed with upper-case digits is read back as well. */
  lemma {:induction false} UpperHexValue(n: nat)
    ensures AllHex(UpperHex(n)) && Value(UpperHex(n)) == n
  {
    UpperSame(n);
    CaseBlind(UpperHex(n), Hex(n));
    HexValue(n);
  }

  /** 16 ^ k */
  function Power(k: nat): nat {
    if k == 0 then 1 else 16 * Power(k - 1)
  }

  lemma {:induction false} PowerEight()
    ensures Power(8) == WORD
  {
    assert Power(4) == 0x1_0000;
  }

  lemma {:induction false} HexLength(n: nat, k: nat)
    requires 0 < k && n < Power(k)
    ensures |Hex(n)| <= k
  {
    if n < 16 {
    } else {
      HexLength(n / 16, k - 1);
    }
  }

  /** `c | 32` */
  function SetBit32(c: char): int {
    if c as int / 32 % 2 == 0 then c as int + 32 else c as int
  }

  /** The loop over `chunksize_buf`, which wraps around like an unsigned int. */
  method ReadSize(digits: string) returns (size: nat)
    requires AllHex(digits)
    ensures size == Value(digits) % WORD
  {
    size := 0;
    var j := 0;
    while j < |digits|
      invariant j <= |digits| && size == Value(digits[..j]) % WORD
    {
      assert digits[..j + 1][..j] == digits[..j];
      ShiftIn(Value(digits[..j]), DigitValue(digits[j]));
      var digit := if '0' <= digits[j] <= '9' then digits[j] as int - '0' as int
                   else SetBit32(digits[j]) - 'a' as int + 10;
      size := (size * 16 % WORD + digit) % WORD;
      j := j + 1;
    }
    assert digits[..j] == digits;
  }

  lemma {:induction false} ShiftIn(value: nat, digit: nat)
    ensures (value % WORD * 16 % WORD + digit) % WORD == (16 * value + digit) % WORD
  {
    var q := value / WORD;
    assert value == q * WORD + value % WORD;
  }

  /** The value of an unsigned int as an int. */
  function AsInt(n: nat): int
    requires n < WORD
  {
    if n < SIGN then n else n - WORD
  }

  /** `bytestocopy`: the comparison is signed, the number copied is not. It stays within the `left` bytes of
      the segment exactly for chunk sizes that are not negative as an int. */
  function BytesToCopy(chunksize: nat, left: nat): (n: nat)
    requires chunksize < WORD && left < SIGN
    ensures n <= left <==> chunksize < SIGN
    ensures n <= left ==> n <= chunksize && (n == left || n == chunksize)
  {
    if AsInt(chunksize) < left then chunksize else left
  }

  // ----- the automaton -----

  datatype Phase =
    | Lead                 // a CR may be skipped, then an LF
    | LeadLf               // an LF may be skipped
    | Digits               // collecting digits of the size
    | Extension            // discarding the rest of the line
    | AfterCr              // an LF ends the line
    | Data
    | Ended                // the chunk of size zero has been read
    | Overrun              // the copy has gone past the end of the segment

  datatype Scan = Scan(phase: Phase, size: nat, digits: string, content: string)

  ghost predicate Sound(s: Scan) {
    && AllHex(s.digits) && |s.digits| <= DIGITS && s.size < WORD
    && (s.phase.Data? || s.phase.Overrun? <==> 0 < s.size)
    && (s.phase.Lead? || s.phase.LeadLf? || s.phase.Data? || s.phase.Ended? || s.phase.Overrun? ==> s.digits == [])
  }

  /** The top of the outer loop. */
  function Top(s: Scan): Scan {
    if s.phase.Data? || s.phase.Ended? || s.phase.Overrun? then s
    else if s.digits == [] then s.(phase := Lead) else s.(phase := Digits)
  }

  /** What follows a size line: the end, data that can be copied, or a copy that does not stop in time. */
  function PhaseOf(size: nat): Phase {
    if size == 0 then Ended else if size < SIGN then Data else Overrun
  }

  /** The line feed after the size. */
  function SizeRead(s: Scan): Scan
    requires Sound(s)
  {
    var size := Value(s.digits) % WORD;
    Scan(PhaseOf(size), size, [], s.content)
  }

  function InExtension(s: Scan, c: char): Scan
    requires Sound(s)
  {
    if c == '\r' then s.(phase := AfterCr) else if c == '\n' then SizeRead(s) else s.(phase := Extension)
  }

  function InDigits(s: Scan, c: char): Scan
    requires Sound(s)
  {
    if IsHex(c) && |s.digits| < DIGITS then s.(phase := Digits, digits := s.digits + [c]) else InExtension(s, c)
  }

  function InLead(s: Scan, c: char): Scan
    requires Sound(s)
  {
    if c == '\r' then s.(phase := LeadLf) else if c == '\n' then s.(phase := Digits) else InDigits(s, c)
  }

  function Step(s: Scan, c: char): (r: Scan)
    requires Sound(s)
    ensures Sound(r)
  {
    match s.phase
    case Lead => InLead(s, c)
    case LeadLf => if c == '\n' then s.(phase := Digits) else InDigits(s, c)
    case Digits => InDigits(s, c)
    case Extension => InExtension(s, c)
    case AfterCr =>
      if c == '\n' then SizeRead(s) else if s.digits == [] then InLead(s, c) else InDigits(s, c)
    case Data =>
      Scan(if s.size == 1 then Lead else Data, s.size - 1, [], s.content + [c])
    case Ended => s
    case Overrun => s
  }

  function Run(s: Scan, bytes: string): (r: Scan)
    requires Sound(s)
    ensures Sound(r)
    decreases |bytes|
  {
    if bytes == [] then s else Run(Step(s, bytes[0]), bytes[1..])
  }

  /** What receiving one segment comes to. */
  function Fed(s: Scan, segment: string): (r: Scan)
    requires Sound(s)
    ensures Sound(r)
  {
    Top(Run(s, segment))
  }

  lemma {:induction false} FedStep(s: Scan, segment: string, i: nat)
    requires Sound(s) && i < |segment|
    ensures Fed(s, segment[i..]) == Fed(Step(s, segment[i]), segment[i + 1..])
  {
    assert segment[i..][1..] == segment[i + 1..];
  }

  /** Going back to the top of the loop after a lone carriage return loses nothing. */
  lemma {:induction false} FedTop(s: Scan, segment: string, i: nat)
    requires Sound(s) && i <= |segment| && (i == |segment| || (s.phase.AfterCr? && segment[i] != '\n'))
    ensures Fed(s, segment[i..]) == Fed(Top(s), segment[i..])
  {
    if i < |segment| {
      FedStep(s, segment, i);
      FedStep(Top(s), segment, i);
    }
  }

  lemma {:induction false} FedLead(s: Scan, segment: string, i: nat)
    requires Sound(s) && i <= |segment| && (s.phase.Lead? || s.phase.LeadLf?)
    requires i < |segment| ==> segment[i] != '\n' && (s.phase.Lead? ==> segment[i] != '\r')
    ensures Fed(s, segment[i..]) == Fed(s.(phase := Digits), segment[i..])
  {
    if i < |segment| {
      FedStep(s, segment, i);
      FedStep(s.(phase := Digits), segment, i);
    }
  }

  lemma {:induction false} FedStopped(s: Scan, segment: string)
    requires Sound(s) && (s.phase.Ended? || s.phase.Overrun?)
    ensures Fed(s, segment) == s
    decreases |segment|
  {
    if segment == [] {
    } else {
      FedStopped(s, segment[1..]);
    }
  }

  function Copied(s: Scan, bytes: string): Scan
    requires |bytes| <= s.size
  {
    Scan(if s.size == |bytes| then Lead else Data, s.size - |bytes|, [], s.content + bytes)
  }

  lemma {:induction false} FedData(s: Scan, segment: string, i: nat, k: nat)
    requires Sound(s) && s.phase.Data? && 0 < k <= s.size && i + k <= |segment|
    ensures Fed(s, segment[i..]) == Fed(Copied(s, segment[i..i + k]), segment[i + k..])
    decreases k
  {
    FedStep(s, segment, i);
    assert segment[i..i + k] == [segment[i]] + segment[i + 1..i + k];
    if k > 1 {
      var t := Step(s, segment[i]);
      FedData(t, segment, i + 1, k - 1);
      assert Copied(t, segment[i + 1..i + k]) == Copied(s, segment[i..i + k]);
    } else {
      assert segment[i + 1..i + k] == [];
      assert Step(s, segment[i]) == Copied(s, segment[i..i + k]);
    }
  }

  // ----- the decoder -----

  datatype Status = Reading | Finished | Overran

  /** The length of a segment is an int. */
  type Segment = s: string | |s| < SIGN

  /** The variables of `getHTTPResponse` that live from one receive to the next. */
  class Decoder {
    var chunksize: nat
    var digits: string          // chunksize_buf, up to chunksize_buf_index
    var content: string
    var status: Status

    constructor ()
      ensures Settled() && State() == Scan(Lead, 0, [], [])
    {
      chunksize, digits, content, status := 0, [], [], Reading;
    }

    ghost function State(): Scan
      reads this
    {
      Scan(match status
           case Reading => if chunksize > 0 then PhaseOf(chunksize) else if digits == [] then Lead else Digits
           case Finished => Ended
           case Overran => Overrun,
           chunksize, digits, content)
    }

    method CollectDigits(segment: string, start: nat) returns (i: nat)
      requires start <= |segment| && Sound(State().(phase := Digits))
      modifies this`digits
      ensures start <= i <= |segment| && Sound(State().(phase := Digits))
      ensures i < |segment| ==> !IsHex(segment[i]) || |digits| == DIGITS
      ensures Fed(old(State()).(phase := Digits), segment[start..]) == Fed(State().(phase := Digits), segment[i..])
    {
      i := start;
      while i < |segment| && IsHex(segment[i]) && |digits| < DIGITS
        invariant start <= i <= |segment| && Sound(State().(phase := Digits))
        invariant Fed(old(State()).(phase := Digits), segment[start..]) == Fed(State().(phase := Digits), segment[i..])
      {
        FedStep(State().(phase := Digits), segment, i);
        digits := digits + [segment[i]];
        i := i + 1;
      }
    }

    /** Everything up to the end of the line or of the segment is dropped. */
    method SkipExtension(segment: string, start: nat) returns (i: nat, ghost at: Scan)
      requires start <= |segment| && Sound(State().(phase := Digits))
      requires start < |segment| ==> !IsHex(segment[start]) || |digits| == DIGITS
      ensures start <= i <= |segment| && (i == |segment| || segment[i] == '\r' || segment[i] == '\n')
      ensures at == State().(phase := at.phase) && (at.phase.Digits? || at.phase.Extension?)
      ensures at.phase.Digits? ==> i == start
      ensures Fed(State().(phase := Digits), segment[start..]) == Fed(at, segment[i..])
    {
      i, at := start, State().(phase := Digits);
      while i < |segment| && segment[i] != '\r' && segment[i] != '\n'
        invariant start <= i <= |segment|
        invariant at == State().(phase := if i == start then Digits else Extension)
        invariant Fed(State().(phase := Digits), segment[start..]) == Fed(at, segment[i..])
      {
        FedStep(at, segment, i);
        at := State().(phase := Extension);
        i := i + 1;
      }
    }

    /** Skips a carriage return and a line feed, where no digit has been collected. */
    method SkipLead(segment: string, start: nat) returns (i: nat)
      requires start <= |segment| && Sound(State()) && status.Reading? && chunksize == 0
      ensures start <= i <= |segment|
      ensures start < |segment| && (segment[start] == '\r' || segment[start] == '\n') && digits == [] ==> start < i
      ensures Fed(State(), segment[start..]) == Fed(State().(phase := Digits), segment[i..])
    {
      i := start;
      if digits == [] {
        ghost var at := State();
        if i < |segment| && segment[i] == '\r' {
          FedStep(at, segment, i);
          at := at.(phase := LeadLf);
          i := i + 1;
        }
        if i < |segment| && segment[i] == '\n' {
          FedStep(at, segment, i);
          i := i + 1;
        } else {
          FedLead(at, segment, i);
        }
      }
    }

    /** Reads the size line up to its end or the end of the segment. */
    method ScanLine(segment: string, start: nat) returns (i: nat, ghost at: Scan)
      requires start < |segment| && Sound(State()) && status.Reading? && chunksize == 0
      modifies this`digits
      ensures start <= i <= |segment| && (i == |segment| || segment[i] == '\r' || segment[i] == '\n')
      ensures Sound(at) && at == State().(phase := at.phase) && (at.phase.Digits? || at.phase.Extension?)
      ensures Fed(old(State()), segment[start..]) == Fed(at, segment[i..])
    {
      i := SkipLead(segment, start);
      i := CollectDigits(segment, i);
      i, at := SkipExtension(segment, i);
    }

    /** Skips a carriage return. */
    method SkipCr(segment: string, start: nat, ghost at: Scan) returns (i: nat, ghost after: Scan)
      requires start <= |segment| && Sound(at) && (at.phase.Digits? || at.phase.Extension?)
      ensures start <= i <= |segment| && (start < |segment| && segment[start] == '\r' ==> start < i)
      ensures Sound(after) && after == at.(phase := after.phase)
      ensures if start < i then after.phase.AfterCr? else after == at && (i < |segment| ==> segment[i] != '\r')
      ensures Fed(at, segment[start..]) == Fed(after, segment[i..])
    {
      i, after := start, at;
      if i < |segment| && segment[i] == '\r' {
        FedStep(at, segment, i);
        after := at.(phase := AfterCr);
        i := i + 1;
      }
    }

    /** Reads as much of the size line as the segment holds. */
    method ReadLine(segment: string, start: nat) returns (i: nat, done: bool)
      requires start < |segment| && Sound(State()) && status.Reading? && chunksize == 0
      modifies this`chunksize, this`digits
      ensures start < i <= |segment|
      ensures done ==> digits == [] && chunksize < WORD
      ensures done ==>
        Fed(old(State()), segment[start..]) == Fed(Scan(PhaseOf(chunksize), chunksize, [], content), segment[i..])
      ensures !done ==> Sound(State()) && chunksize == 0
      ensures !done ==> Fed(old(State()), segment[start..]) == Fed(State(), segment[i..])
    {
      ghost var at;
      i, at := ScanLine(segment, start);
      i, at := SkipCr(segment, i, at);
      done := i < |segment| && segment[i] == '\n';
      if done {
        FedStep(at, segment, i);
        chunksize := ReadSize(digits);
        digits := [];
        i := i + 1;
      } else {
        FedTop(at, segment, i);
      }
    }

    /** No receive leaves a chunk size behind that is too large to copy. */
    ghost predicate Settled()
      reads this
    {
      Sound(State()) && (status.Reading? ==> chunksize < SIGN)
    }

    /** Copies what the segment holds of the chunk. A copy that goes past the segment reads what was never
        received; the model stops there. */
    method Copy(segment: Segment, start: nat) returns (i: nat)
      requires start <= |segment| && Sound(State()) && status.Reading? && 0 < chunksize
      modifies this`chunksize, this`content, this`status
      ensures Settled() && start <= i <= |segment|
      ensures if SIGN <= old(chunksize) then status.Overran? else status.Reading? && (start < |segment| ==> start < i)
      ensures Fed(old(State()), segment[start..]) == Fed(State(), segment[i..])
    {
      i := start;
      var bytesToCopy := BytesToCopy(chunksize, |segment| - start);
      if bytesToCopy > |segment| - start {
        status := Overran;
      } else {
        if bytesToCopy > 0 {
          FedData(State(), segment, start, bytesToCopy);
        }
        content := content + segment[start..start + bytesToCopy];
        i := start + bytesToCopy;
        chunksize := chunksize - bytesToCopy;
      }
    }

    /** One receive: the nested loops are the automaton, started at the top of the loop. */
    method Receive(segment: Segment)
      requires Settled()
      modifies this
      ensures Settled() && State() == Fed(old(State()), segment)
    {
      var i := 0;
      assert segment[0..] == segment;
      while i < |segment| && status.Reading?
        invariant i <= |segment| && Settled()
        invariant Fed(old(State()), segment) == Fed(State(), segment[i..])
        decreases |segment| - i, if status.Reading? then 1 else 0
      {
        if chunksize == 0 {
          var done;
          i, done := ReadLine(segment, i);
          if !done {
            continue;
          }
          if chunksize == 0 {
            status := Finished;
            break;
          }
        }
        i := Copy(segment, i);
      }
      if !status.Reading? {
        FedStopped(State(), segment[i..]);
      }
    }
  }

  // ----- the coding -----

  const CRLF := "\r\n"

  datatype Chunk = Chunk(size: string, extension: string, data: string)

  /** The chunks that hold data, the last chunk, and whatever follows its line. */
  datatype Body = Body(chunks: seq<Chunk>, last: Chunk, tail: string)

  /** No byte that ends the line, and none that could be taken for a digit. */
  ghost predicate Plain(extension: string) {
    forall i :: 0 <= i < |extension| ==> extension[i] != '\r' && extension[i] != '\n' && !IsHex(extension[i])
  }

  /** A size line that is read alike however it is cut. */
  ghost predicate Readable(c: Chunk) {
    AllHex(c.size) && 0 < |c.size| && Plain(c.extension)
  }

  /** The digits there is room for. */
  function Leading(digits: string): (s: string)
    ensures s <= digits && |s| <= DIGITS && (|digits| <= DIGITS ==> s == digits)
  {
    if |digits| <= DIGITS then digits else digits[..DIGITS]
  }

  /** The size of a chunk as the decoder reads it. */
  function SizeOf(c: Chunk): nat
    requires AllHex(c.size)
  {
    Value(Leading(c.size)) % WORD
  }

  /** The size is that of the data, and not too much for the decoder: `Leading` does not cut it short, and it is
      not negative as an int. */
  ghost predicate WellFormed(c: Chunk) {
    Readable(c) && Value(c.size) == |c.data| < SIGN && Value(Leading(c.size)) == Value(c.size)
  }

  ghost predicate HoldsData(c: Chunk) {
    WellFormed(c) && c.data != []
  }

  /** A body as the standard has it, of such chunks. */
  ghost predicate Proper(b: Body) {
    && (forall i :: 0 <= i < |b.chunks| ==> HoldsData(b.chunks[i]))
    && WellFormed(b.last) && b.last.data == []
  }

  /** Any stream the decoder can take for a body: sizes may be cut short or wrap around, and the line after the
      chunks that hold data may be one of size zero or one the copy cannot deal with. */
  ghost predicate Decodable(b: Body) {
    && (forall i :: 0 <= i < |b.chunks| ==> Carries(b.chunks[i]))
    && Readable(b.last) && !PhaseOf(SizeOf(b.last)).Data?
  }

  ghost predicate Carries(c: Chunk) {
    Readable(c) && SizeOf(c) == |c.data| && PhaseOf(|c.data|).Data?
  }

  lemma {:induction false} ProperDecodable(b: Body)
    requires Proper(b)
    ensures Decodable(b) && SizeOf(b.last) == 0
  {
    forall i | 0 <= i < |b.chunks| ensures Carries(b.chunks[i]) {
      assert HoldsData(b.chunks[i]);
    }
  }

  function First(b: Body): Chunk {
    if b.chunks == [] then b.last else b.chunks[0]
  }

  function Line(b: Body): string {
    First(b).size + First(b).extension
  }

  function Pop(b: Body): Body {
    if b.chunks == [] then b else b.(chunks := b.chunks[1..])
  }

  /** The bytes of the body. */
  function Encoded(b: Body): string
    decreases |b.chunks|
  {
    Line(b) + (CRLF + AfterLine(b))
  }

  function AfterLine(b: Body): string
    decreases |b.chunks|, 0
  {
    if b.chunks == [] then b.tail else b.chunks[0].data + (CRLF + Encoded(Pop(b)))
  }

  /** The data of the body. */
  function Joined(chunks: seq<Chunk>): string {
    if chunks == [] then [] else chunks[0].data + Joined(chunks[1..])
  }

  // ----- where in a body the decoder is -----

  datatype Spot =
    | AtLine(skip: nat, body: Body)        // `skip` bytes of a CR LF, then a size line
    | InLine(k: nat, body: Body)           // `k` bytes of the size line have been read
    | AtLf(body: Body)
    | InData(k: nat, body: Body)           // `k` bytes of the data have been read
    | Done(last: Chunk, tail: string)      // the line of `last` has been read

  ghost predicate Legal(spot: Spot) {
    match spot
    case AtLine(skip, b) => Decodable(b) && skip <= 2
    case InLine(k, b) => Decodable(b) && 0 < k <= |Line(b)|
    case AtLf(b) => Decodable(b)
    case InData(k, b) => Decodable(b) && b.chunks != [] && k < |b.chunks[0].data|
    case Done(last, _) => Readable(last) && !PhaseOf(SizeOf(last)).Data?
  }

  function Rest(spot: Spot): string
    requires Legal(spot)
  {
    match spot
    case AtLine(skip, b) => if skip == 0 then Encoded(b)
      else if skip == 1 then ['\n'] + Encoded(b) else CRLF + Encoded(b)
    case InLine(k, b) => Line(b)[k..] + (CRLF + AfterLine(b))
    case AtLf(b) => ['\n'] + AfterLine(b)
    case InData(k, b) => b.chunks[0].data[k..] + (CRLF + Encoded(Pop(b)))
    case Done(_, tail) => tail
  }

  /** The data still to come. */
  function Wanted(spot: Spot): string
    requires Legal(spot)
  {
    match spot
    case AtLine(_, b) => Joined(b.chunks)
    case InLine(_, b) => Joined(b.chunks)
    case AtLf(b) => Joined(b.chunks)
    case InData(k, b) => b.chunks[0].data[k..] + Joined(b.chunks[1..])
    case Done(_, _) => []
  }

  ghost predicate Matches(s: Scan, spot: Spot)
    requires Legal(spot)
  {
    && Sound(s)
    && match spot
       case AtLine(skip, b) => s.digits == []
         && (s.phase.Lead? || (skip <= 1 && s.phase.LeadLf?) || (skip == 0 && s.phase.Digits?))
       case InLine(k, b) =>
         && s.digits == Leading(First(b).size[..if k < |First(b).size| then k else |First(b).size|])
         && (s.phase.Digits? || (k > |Leading(First(b).size)| && s.phase.Extension?))
       case AtLf(b) => s.digits == Leading(First(b).size) && (s.phase.AfterCr? || s.phase.Digits?)
       case InData(k, b) => s.phase.Data? && s.size == |b.chunks[0].data| - k
       case Done(last, _) => s.phase == PhaseOf(s.size) && s.size == SizeOf(last)
  }

  /** One byte on. */
  function Next(spot: Spot): Spot {
    match spot
    case AtLine(skip, b) => if skip > 0 then AtLine(skip - 1, b) else InLine(1, b)
    case InLine(k, b) => if k < |Line(b)| then InLine(k + 1, b) else AtLf(b)
    case AtLf(b) => if b.chunks == [] then Done(b.last, b.tail) else InData(0, b)
    case InData(k, b) => if k + 1 < |First(b).data| then InData(k + 1, b) else AtLine(2, Pop(b))
    case Done(last, tail) => if tail == [] then spot else Done(last, tail[1..])
  }

  /** The byte moves the decoder with the spot, and what is read plus what is to come stays the same. */
  ghost predicate Moves(s: Scan, spot: Spot)
    requires Legal(spot) && Matches(s, spot) && Rest(spot) != []
  {
    && Legal(Next(spot)) && Rest(Next(spot)) == Rest(spot)[1..]
    && Matches(Step(s, Rest(spot)[0]), Next(spot))
    && Step(s, Rest(spot)[0]).content + Wanted(Next(spot)) == s.content + Wanted(spot)
  }

  lemma {:induction false} Uncons(a: string, b: string)
    requires a != []
    ensures (a + b)[0] == a[0] && (a + b)[1..] == a[1..] + b
  {
  }

  lemma {:induction false} LeadMoves(s: Scan, skip: nat, b: Body)
    requires Legal(AtLine(skip, b)) && Matches(s, AtLine(skip, b))
    ensures Moves(s, AtLine(skip, b))
  {
    if skip == 0 {
      var c := First(b).size[0];
      Uncons(Line(b), CRLF + AfterLine(b));
      assert Line(b)[0] == c && IsHex(c);
      assert First(b).size[..1] == [c];
      assert Step(s, c) == s.(phase := Digits, digits := [c]);
    } else {
      Uncons(if skip == 1 then ['\n'] else CRLF, Encoded(b));
      assert [] + Encoded(b) == Encoded(b);
      assert CRLF[1..] == ['\n'] && ['\n'][1..] == [];
    }
  }

  lemma {:induction false} LeadingNext(size: string, k: nat)
    requires k < |size|
    ensures Leading(size[..k + 1]) == if k < DIGITS then Leading(size[..k]) + [size[k]] else Leading(size[..k])
  {
    assert size[..k + 1] == size[..k] + [size[k]];
  }

  lemma {:induction false} LineRest(b: Body, k: nat)
    requires Decodable(b) && 0 < k < |Line(b)|
    ensures Rest(InLine(k, b)) != [] && Rest(InLine(k, b))[0] == Line(b)[k]
    ensures Rest(InLine(k, b))[1..] == Rest(InLine(k + 1, b))
  {
    Uncons(Line(b)[k..], CRLF + AfterLine(b));
    assert Line(b)[k..][1..] == Line(b)[k + 1..];
  }

  /** A digit is collected, or dropped when there is no room for it. */
  lemma {:induction false} DigitTaken(s: Scan, size: string, k: nat)
    requires Sound(s) && AllHex(size) && k < |size| && s.digits == Leading(size[..k])
    requires s.phase.Digits? || (k > DIGITS && s.phase.Extension?)
    ensures var t := Step(s, size[k]);
      && t == s.(phase := t.phase, digits := Leading(size[..k + 1]))
      && (t.phase.Digits? || (k + 1 > DIGITS && t.phase.Extension?))
  {
    LeadingNext(size, k);
  }

  lemma {:induction false} DigitMoves(s: Scan, k: nat, b: Body)
    requires Legal(InLine(k, b)) && Matches(s, InLine(k, b)) && k < |First(b).size|
    ensures Moves(s, InLine(k, b))
  {
    LineRest(b, k);
    assert Line(b)[k] == First(b).size[k];
    DigitTaken(s, First(b).size, k);
  }

  lemma {:induction false} ExtensionDropped(s: Scan, c: char)
    requires Sound(s) && (s.phase.Digits? || s.phase.Extension?) && !IsHex(c) && c != '\r' && c != '\n'
    ensures Step(s, c) == s.(phase := Extension)
  {
  }

  lemma {:induction false} ExtensionMoves(s: Scan, k: nat, b: Body)
    requires Legal(InLine(k, b)) && Matches(s, InLine(k, b)) && |First(b).size| <= k < |Line(b)|
    ensures Moves(s, InLine(k, b))
  {
    var c := First(b);
    LineRest(b, k);
    assert Line(b)[k] == c.extension[k - |c.size|];
    ExtensionDropped(s, Line(b)[k]);
  }

  lemma {:induction false} CrMoves(s: Scan, b: Body)
    requires Legal(InLine(|Line(b)|, b)) && Matches(s, InLine(|Line(b)|, b))
    ensures Moves(s, InLine(|Line(b)|, b))
  {
    assert Line(b)[|Line(b)|..] + (CRLF + AfterLine(b)) == CRLF + AfterLine(b);
    Uncons(CRLF, AfterLine(b));
    assert CRLF[1..] == ['\n'];
  }

  lemma {:induction false} LfMoves(s: Scan, b: Body)
    requires Legal(AtLf(b)) && Matches(s, AtLf(b))
    ensures Moves(s, AtLf(b))
  {
    var size := SizeOf(First(b));
    assert Rest(AtLf(b)) == ['\n'] + AfterLine(b);
    assert Step(s, '\n') == Scan(PhaseOf(size), size, [], s.content);
    if b.chunks != [] {
      assert b.chunks[0].data[0..] == b.chunks[0].data;
    }
  }

  lemma {:induction false} DataCopied(read: string, data: string, k: nat, more: string)
    requires k < |data|
    ensures (read + [data[k]]) + (data[k + 1..] + more) == read + (data[k..] + more)
    ensures (data[k..] + more)[1..] == data[k + 1..] + more && (data[k..] + more)[0] == data[k]
  {
    assert data[k..] == [data[k]] + data[k + 1..];
  }

  lemma {:induction false} MiddleMoves(s: Scan, k: nat, b: Body)
    requires Legal(InData(k, b)) && Matches(s, InData(k, b)) && k + 1 < |First(b).data|
    ensures Moves(s, InData(k, b))
  {
    var data := b.chunks[0].data;
    DataCopied(s.content, data, k, CRLF + Encoded(Pop(b)));
    DataCopied(s.content, data, k, Joined(b.chunks[1..]));
    assert Step(s, data[k]) == Scan(Data, s.size - 1, [], s.content + [data[k]]);
  }

  lemma {:induction false} LastMoves(s: Scan, k: nat, b: Body)
    requires Legal(InData(k, b)) && Matches(s, InData(k, b)) && k + 1 == |First(b).data|
    ensures Moves(s, InData(k, b))
  {
    var data := b.chunks[0].data;
    DataCopied(s.content, data, k, CRLF + Encoded(Pop(b)));
    DataCopied(s.content, data, k, Joined(b.chunks[1..]));
    assert Step(s, data[k]) == Scan(Lead, 0, [], s.content + [data[k]]);
    assert data[k + 1..] == [];
    assert [] + (CRLF + Encoded(Pop(b))) == CRLF + Encoded(Pop(b));
    assert [] + Joined(b.chunks[1..]) == Joined(b.chunks[1..]);
  }

  lemma {:induction false} SpotMoves(s: Scan, spot: Spot)
    requires Legal(spot) && Matches(s, spot) && Rest(spot) != []
    ensures Moves(s, spot)
  {
    match spot
    case AtLine(skip, b) => LeadMoves(s, skip, b);
    case InLine(k, b) =>
      if k < |First(b).size| {
        DigitMoves(s, k, b);
      } else if k < |Line(b)| {
        ExtensionMoves(s, k, b);
      } else {
        CrMoves(s, b);
      }
    case AtLf(b) => LfMoves(s, b);
    case InData(k, b) =>
      if k + 1 < |First(b).data| {
        MiddleMoves(s, k, b);
      } else {
        LastMoves(s, k, b);
      }
    case Done(_, _) =>
  }

  /** The decoder stands at `spot`, `rest` is to come, and `want` is to be the content in the end. */
  ghost predicate Stands(s: Scan, spot: Spot, rest: string, want: string) {
    Legal(spot) && Matches(s, spot) && Rest(spot) == rest && s.content + Wanted(spot) == want
  }

  lemma {:induction false} StandsNext(s: Scan, spot: Spot, rest: string, want: string)
    requires Stands(s, spot, rest, want) && rest != []
    ensures Sound(s) && Stands(Step(s, rest[0]), Next(spot), rest[1..], want)
  {
    SpotMoves(s, spot);
  }

  lemma {:induction false} StandsTop(s: Scan, spot: Spot, rest: string, want: string)
    requires Stands(s, spot, rest, want)
    ensures Stands(Top(s), spot, rest, want)
  {
  }

  // ----- every segmentation -----

  const START := Scan(Lead, 0, [], [])

  function FedAll(s: Scan, segments: seq<string>): (r: Scan)
    requires Sound(s)
    ensures Sound(r)
    decreases |segments|
  {
    if segments == [] then s else FedAll(Fed(s, segments[0]), segments[1..])
  }

  function Concat(segments: seq<string>): string {
    if segments == [] then [] else segments[0] + Concat(segments[1..])
  }

  lemma {:induction false} Associate(a: string, b: string, c: string)
    ensures (a + b) + c == a + (b + c)
  {
  }

  /** The relation between the decoder and the bytes to come survives the next byte and the end of a segment. */
  ghost predicate KeptAt(inv: (Scan, string) -> bool, s: Scan, rest: string) {
    inv(s, rest) ==> Sound(s) && inv(Top(s), rest) && (rest != [] ==> inv(Step(s, rest[0]), rest[1..]))
  }

  ghost predicate Kept(inv: (Scan, string) -> bool) {
    forall s, rest :: KeptAt(inv, s, rest)
  }

  lemma {:induction false} RunKeeps(inv: (Scan, string) -> bool, s: Scan, bytes: string, missing: string)
    requires Kept(inv) && inv(s, bytes + missing)
    ensures Sound(s) && inv(Run(s, bytes), missing)
    decreases |bytes|
  {
    assert KeptAt(inv, s, bytes + missing);
    if bytes == [] {
      assert bytes + missing == missing;
    } else {
      Uncons(bytes, missing);
      RunKeeps(inv, Step(s, bytes[0]), bytes[1..], missing);
    }
  }

  /** So it survives every segmentation. */
  lemma {:induction false} AllKeeps(inv: (Scan, string) -> bool, s: Scan, segments: seq<string>, missing: string)
    requires Kept(inv) && inv(s, Concat(segments) + missing)
    ensures Sound(s) && inv(FedAll(s, segments), missing)
    decreases |segments|
  {
    assert KeptAt(inv, s, Concat(segments) + missing);
    if segments == [] {
      assert Concat(segments) + missing == missing;
    } else {
      var rest := Concat(segments[1..]) + missing;
      Associate(segments[0], Concat(segments[1..]), missing);
      RunKeeps(inv, s, segments[0], rest);
      assert KeptAt(inv, Run(s, segments[0]), rest);
      AllKeeps(inv, Fed(s, segments[0]), segments[1..], missing);
    }
  }

  function LastOf(spot: Spot): Chunk {
    if spot.Done? then spot.last else spot.body.last
  }

  function TailOf(spot: Spot): string {
    if spot.Done? then spot.tail else spot.body.tail
  }

  /** The decoder stands at a spot of this body. */
  ghost predicate StandsIn(b: Body, s: Scan, spot: Spot, rest: string) {
    Stands(s, spot, rest, Joined(b.chunks)) && LastOf(spot) == b.last && |TailOf(spot)| <= |b.tail|
  }

  ghost predicate Within(b: Body, s: Scan, rest: string) {
    exists spot :: StandsIn(b, s, spot, rest)
  }

  lemma {:induction false} NextStandsIn(b: Body, s: Scan, spot: Spot, rest: string)
    requires StandsIn(b, s, spot, rest) && rest != []
    ensures Sound(s) && StandsIn(b, Step(s, rest[0]), Next(spot), rest[1..])
  {
    StandsNext(s, spot, rest, Joined(b.chunks));
  }

  lemma {:induction false} TopStandsIn(b: Body, s: Scan, spot: Spot, rest: string)
    requires StandsIn(b, s, spot, rest)
    ensures Sound(s) && StandsIn(b, Top(s), spot, rest)
  {
    StandsTop(s, spot, rest, Joined(b.chunks));
  }

  lemma {:induction false} WithinGoesOn(b: Body, s: Scan, rest: string)
    requires Within(b, s, rest)
    ensures Sound(s) && Within(b, Top(s), rest)
    ensures rest != [] ==> Within(b, Step(s, rest[0]), rest[1..])
  {
    var spot :| StandsIn(b, s, spot, rest);
    TopStandsIn(b, s, spot, rest);
    if rest != [] {
      NextStandsIn(b, s, spot, rest);
    }
  }

  lemma {:induction false} WithinKept(b: Body)
    ensures Kept((s, rest) => Within(b, s, rest))
  {
    var inv := (s, rest) => Within(b, s, rest);
    forall s, rest ensures KeptAt(inv, s, rest) {
      if Within(b, s, rest) {
        WithinGoesOn(b, s, rest);
      }
    }
  }

  lemma {:induction false} WithinAtFirst(b: Body)
    requires Decodable(b)
    ensures Within(b, START, Encoded(b))
  {
    assert START.content + Joined(b.chunks) == Joined(b.chunks);
    assert StandsIn(b, START, AtLine(0, b), Encoded(b));
  }

  lemma {:induction false} ReadsPart(b: Body, segments: seq<string>, missing: string)
    requires Decodable(b) && Concat(segments) + missing == Encoded(b)
    ensures Within(b, FedAll(START, segments), missing)
  {
    WithinAtFirst(b);
    WithinKept(b);
    AllKeeps((s, rest) => Within(b, s, rest), START, segments, missing);
  }

  lemma {:induction false} AtEnd(b: Body, s: Scan)
    requires Decodable(b) && Within(b, s, [])
    ensures s == Scan(PhaseOf(SizeOf(b.last)), SizeOf(b.last), [], Joined(b.chunks))
  {
    var spot :| StandsIn(b, s, spot, []);
    assert spot.Done?;
    assert s.content + [] == s.content;
  }

  /** However the stream is cut into segments, the decoder has the data of its chunks, and stops at the line
      after them. */
  lemma {:induction false} Reads(b: Body, segments: seq<string>)
    requires Decodable(b) && Concat(segments) == Encoded(b)
    ensures FedAll(START, segments) == Scan(PhaseOf(SizeOf(b.last)), SizeOf(b.last), [], Joined(b.chunks))
  {
    assert Concat(segments) + [] == Encoded(b);
    ReadsPart(b, segments, []);
    AtEnd(b, FedAll(START, segments));
  }

  /** However a body is cut into segments, the decoder rebuilds its data and knows that it is complete. */
  lemma {:induction false} Decodes(b: Body, segments: seq<string>)
    requires Proper(b) && Concat(segments) == Encoded(b)
    ensures FedAll(START, segments) == Scan(Ended, 0, [], Joined(b.chunks))
  {
    ProperDecodable(b);
    Reads(b, segments);
  }

  /** No part of a stream is taken for the whole: what has been read is a prefix of the data, and the decoder
      stops only once the line after the chunks has arrived. */
  lemma {:induction false} DecodesPart(b: Body, segments: seq<string>, missing: string)
    requires Decodable(b) && Concat(segments) + missing == Encoded(b)
    ensures FedAll(START, segments).content <= Joined(b.chunks)
    ensures |missing| > |b.tail| ==> !FedAll(START, segments).phase.Ended? && !FedAll(START, segments).phase.Overrun?
  {
    ReadsPart(b, segments, missing);
    PartRead(b, FedAll(START, segments), missing);
  }

  lemma {:induction false} PartRead(b: Body, s: Scan, missing: string)
    requires Within(b, s, missing)
    ensures s.content <= Joined(b.chunks)
    ensures |missing| > |b.tail| ==> !s.phase.Ended? && !s.phase.Overrun?
  {
    var spot :| StandsIn(b, s, spot, missing);
    assert s.content <= s.content + Wanted(spot);
  }

  /** The chunk at `i` seen as the last one. */
  function StoppedAt(b: Body, i: nat): Body
    requires i < |b.chunks|
  {
    Body(b.chunks[..i], b.chunks[i], AfterLine(b.(chunks := b.chunks[i..])))
  }

  lemma {:induction false} StoppedEncoded(b: Body, i: nat)
    requires i < |b.chunks|
    ensures Encoded(StoppedAt(b, i)) == Encoded(b)
    decreases i
  {
    if i == 0 {
      assert b.chunks[0..] == b.chunks && b.chunks[..0] == [];
    } else {
      StoppedEncoded(Pop(b), i - 1);
      assert b.chunks[1..][..i - 1] == b.chunks[..i][1..] && b.chunks[1..][i - 1..] == b.chunks[i..];
      assert Pop(StoppedAt(b, i)) == StoppedAt(Pop(b), i - 1);
    }
  }

  /** A chunk whose size is read as zero, or as one too large to copy, stops the decoder: nothing of its data, and
      of the chunks after it, is ever seen. */
  lemma {:induction false} StopsAt(b: Body, i: nat, segments: seq<string>)
    requires i < |b.chunks| && (forall j :: 0 <= j < i ==> Carries(b.chunks[j]))
    requires Readable(b.chunks[i]) && !PhaseOf(SizeOf(b.chunks[i])).Data?
    requires Concat(segments) == Encoded(b)
    ensures FedAll(START, segments)
         == Scan(PhaseOf(SizeOf(b.chunks[i])), SizeOf(b.chunks[i]), [], Joined(b.chunks[..i]))
  {
    StoppedEncoded(b, i);
    Reads(StoppedAt(b, i), segments);
  }

  // ----- sizes the copy cannot deal with -----

  /** The byte is the line feed that ends a size line. */
  predicate EndsLine(s: Scan, c: char) {
    c == '\n' && (s.phase.Digits? || s.phase.Extension? || s.phase.AfterCr?)
  }

  /** The digits of the size lines that end in these bytes. */
  function SizesIn(s: Scan, bytes: string): seq<string>
    requires Sound(s)
    decreases |bytes|
  {
    if bytes == [] then []
    else (if EndsLine(s, bytes[0]) then [s.digits] else []) + SizesIn(Step(s, bytes[0]), bytes[1..])
  }

  /** The digits of all size lines that are read. */
  function SizesRead(s: Scan, segments: seq<string>): seq<string>
    requires Sound(s)
    decreases |segments|
  {
    if segments == [] then [] else SizesIn(s, segments[0]) + SizesRead(Fed(s, segments[0]), segments[1..])
  }

  ghost predicate TooLarge(digits: string) {
    AllHex(digits) && SIGN <= Value(digits) % WORD
  }

  ghost predicate SomeTooLarge(sizes: seq<string>) {
    exists i :: 0 <= i < |sizes| && TooLarge(sizes[i])
  }

  lemma {:induction false} SomeEither(a: seq<string>, b: seq<string>)
    ensures SomeTooLarge(a + b) <==> SomeTooLarge(a) || SomeTooLarge(b)
  {
    if SomeTooLarge(a) {
      var i :| 0 <= i < |a| && TooLarge(a[i]);
      assert TooLarge((a + b)[i]);
    } else if SomeTooLarge(b) {
      var i :| 0 <= i < |b| && TooLarge(b[i]);
      assert TooLarge((a + b)[|a| + i]);
    }
  }

  lemma {:induction false} StepOverruns(s: Scan, c: char)
    requires Sound(s)
    ensures Step(s, c).phase.Overrun? <==> s.phase.Overrun? || (EndsLine(s, c) && TooLarge(s.digits))
  {
  }

  lemma {:induction false} RunOverruns(s: Scan, bytes: string)
    requires Sound(s)
    ensures Run(s, bytes).phase.Overrun? <==> s.phase.Overrun? || SomeTooLarge(SizesIn(s, bytes))
    decreases |bytes|
  {
    if bytes == [] {
    } else {
      var ended := if EndsLine(s, bytes[0]) then [s.digits] else [];
      StepOverruns(s, bytes[0]);
      RunOverruns(Step(s, bytes[0]), bytes[1..]);
      SomeEither(ended, SizesIn(Step(s, bytes[0]), bytes[1..]));
      assert SomeTooLarge(ended) <==> EndsLine(s, bytes[0]) && TooLarge(s.digits) by {
        if ended != [] {
          assert ended[0] == s.digits;
        }
      }
    }
  }

  lemma {:induction false} AllOverruns(s: Scan, segments: seq<string>)
    requires Sound(s)
    ensures FedAll(s, segments).phase.Overrun? <==> s.phase.Overrun? || SomeTooLarge(SizesRead(s, segments))
    decreases |segments|
  {
    if segments == [] {
    } else {
      RunOverruns(s, segments[0]);
      AllOverruns(Fed(s, segments[0]), segments[1..]);
      SomeEither(SizesIn(s, segments[0]), SizesRead(Fed(s, segments[0]), segments[1..]));
    }
  }

  /** Whatever the stream and its segments, the copy goes past a segment exactly when the digits of some size
      line, taken modulo 2^32, are at least 2^31. */
  lemma {:induction false} OverrunExact(segments: seq<string>)
    ensures FedAll(START, segments).phase.Overrun? <==> SomeTooLarge(SizesRead(START, segments))
  {
    AllOverruns(START, segments);
  }

  /** Among streams of chunks that is a matter of the stream alone: it depends on the line after the chunks,
      not on how the stream is cut. */
  lemma {:induction false} OverrunStream(b: Body, segments: seq<string>)
    requires Decodable(b) && Concat(segments) == Encoded(b)
    ensures FedAll(START, segments).phase.Overrun? <==> TooLarge(Leading(b.last.size))
    ensures FedAll(START, segments).phase.Ended? <==> Value(Leading(b.last.size)) % WORD == 0
  {
    Reads(b, segments);
  }

  /** The smallest such size: all of its 2^31 bytes are copied out of a segment that has none left. */
  lemma {:induction false} OverrunInput()
    ensures Value("80000000") == SIGN && BytesToCopy(SIGN, 0) == SIGN
    ensures FedAll(START, ["80000000" + CRLF]).phase.Overrun?
  {
    SmallestTooLarge();
    OverrunLine(Chunk("80000000", [], []));
  }

  lemma {:induction false} OverrunLine(last: Chunk)
    requires Readable(last) && last.extension == [] && TooLarge(Leading(last.size))
    ensures FedAll(START, [last.size + CRLF]).phase.Overrun?
  {
    OneSegment(last);
    OverrunStream(Body([], last, []), [last.size + CRLF]);
  }

  lemma {:induction false} OneSegment(last: Chunk)
    requires last.extension == []
    ensures Concat([last.size + CRLF]) == Encoded(Body([], last, []))
  {
    assert last.size + [] == last.size && CRLF + [] == CRLF;
  }

  lemma {:induction false} SmallestTooLarge()
    ensures Value("80000000") == SIGN
  {
    assert "80000000"[..7] == "8000000" && "8000000"[..6] == "800000" && "800000"[..5] == "80000";
    assert "80000"[..4] == "8000" && "8000"[..3] == "800" && "800"[..2] == "80" && "80"[..1] == "8" && "8"[..0] == "";
  }

  // ----- receiving a whole body -----

  /** The receives up to the first one that brings nothing. */
  function Arriving(segments: seq<string>): seq<string> {
    if segments == [] || segments[0] == [] then [] else [segments[0]] + Arriving(segments[1..])
  }

  lemma {:induction false} AllStopped(s: Scan, segments: seq<string>)
    requires Sound(s) && (s.phase.Ended? || s.phase.Overrun?)
    ensures FedAll(s, segments) == s
    decreases |segments|
  {
    if segments == [] {
    } else {
      FedStopped(s, segments[0]);
      AllStopped(s, segments[1..]);
    }
  }

  /** They are all receives before the first that brings nothing. */
  lemma {:induction false} ArrivingExact(segments: seq<string>)
    ensures Arriving(segments) <= segments && forall i :: 0 <= i < |Arriving(segments)| ==> segments[i] != []
    ensures |Arriving(segments)| < |segments| ==> segments[|Arriving(segments)|] == []
  {
    if segments == [] || segments[0] == [] {
    } else {
      ArrivingExact(segments[1..]);
    }
  }

  lemma {:induction false} ArrivingNext(segments: seq<string>, k: nat)
    requires k < |segments| && segments[k] != []
    ensures Arriving(segments[k..]) == [segments[k]] + Arriving(segments[k + 1..])
  {
    assert segments[k..][1..] == segments[k + 1..];
  }

  /** The receive loop: it stops at an empty receive and at the end of the stream. */
  method ReadBody(segments: seq<Segment>) returns (content: string, status: Status)
    ensures content == FedAll(START, Arriving(segments)).content
    ensures status.Finished? <==> FedAll(START, Arriving(segments)).phase.Ended?
    ensures status.Overran? <==> SomeTooLarge(SizesRead(START, Arriving(segments)))
  {
    var decoder := new Decoder();
    var k := 0;
    assert segments[0..] == segments;
    while k < |segments| && segments[k] != [] && decoder.status.Reading?
      invariant k <= |segments| && decoder.Settled()
      invariant FedAll(START, Arriving(segments)) == FedAll(decoder.State(), Arriving(segments[k..]))
    {
      ArrivingNext(segments, k);
      decoder.Receive(segments[k]);
      k := k + 1;
    }
    if !decoder.status.Reading? {
      AllStopped(decoder.State(), Arriving(segments[k..]));
    }
    OverrunExact(Arriving(segments));
    content, status := decoder.content, decoder.status;
  }

  // ----- the encoder -----

  /** The chunk of size zero the encoder ends with. */
  const LAST := Chunk("0", [], [])

  function Bytes(c: Chunk): string {
    c.size + c.extension + CRLF + c.data + CRLF
  }

  lemma {:induction false} Regroup(a: string, b: string, c: string, d: string, e: string, f: string)
    ensures (a + b) + (c + (d + (e + f))) == (a + b + c + d + e) + f
  {
  }

  lemma {:induction false} EncodedCons(c: Chunk, b: Body)
    ensures Encoded(b.(chunks := [c] + b.chunks)) == Bytes(c) + Encoded(b)
  {
    assert ([c] + b.chunks)[1..] == b.chunks;
    assert Pop(b.(chunks := [c] + b.chunks)) == b;
    Regroup(c.size, c.extension, CRLF, c.data, CRLF, Encoded(b));
  }

  lemma {:induction false} ShortSize(size: string, data: string)
    requires AllHex(size) && 0 < |size| <= DIGITS && Value(size) == |data| < SIGN
    ensures WellFormed(Chunk(size, [], data))
  {
  }

  lemma {:induction false} HexShort(n: nat)
    requires n < SIGN
    ensures |Hex(n)| <= 8
  {
    PowerEight();
    HexLength(n, 8);
  }

  lemma {:induction false} HexChunk(data: string)
    requires |data| < SIGN
    ensures WellFormed(Chunk(Hex(|data|), [], data))
  {
    HexValue(|data|);
    HexShort(|data|);
    ShortSize(Hex(|data|), data);
  }

  lemma {:induction false} SpelledChunk(size: string, data: string)
    requires |data| < SIGN && SameDigits(size, Hex(|data|))
    ensures WellFormed(Chunk(size, [], data))
  {
    HexValue(|data|);
    HexShort(|data|);
    CaseBlind(size, Hex(|data|));
    ShortSize(size, data);
  }

  /** The data of a body whose sizes are printed in any mixture of cases. */
  ghost predicate Spelled(chunks: seq<Chunk>) {
    forall i :: 0 <= i < |chunks| ==> SpelledOne(chunks[i])
  }

  ghost predicate SpelledOne(c: Chunk) {
    0 < |c.data| < SIGN && c.extension == [] && SameDigits(c.size, Hex(|c.data|))
  }

  /** Such bodies are decoded however they are cut. */
  lemma {:induction false} SpelledDecodes(chunks: seq<Chunk>, tail: string, segments: seq<string>)
    requires Spelled(chunks) && Concat(segments) == Encoded(Body(chunks, LAST, tail))
    ensures FedAll(START, segments) == Scan(Ended, 0, [], Joined(chunks))
  {
    forall i | 0 <= i < |chunks| ensures HoldsData(chunks[i]) {
      assert SpelledOne(chunks[i]);
      SpelledChunk(chunks[i].size, chunks[i].data);
      assert chunks[i] == Chunk(chunks[i].size, [], chunks[i].data);
    }
    Decodes(Body(chunks, LAST, tail), segments);
  }

  /** So is one whose sizes are printed with upper-case digits, such as `A` for ten bytes. */
  lemma {:induction false} UpperDecodes(data: string, tail: string, segments: seq<string>)
    requires 0 < |data| < SIGN && Concat(segments) == Encoded(Body([Chunk(UpperHex(|data|), [], data)], LAST, tail))
    ensures FedAll(START, segments) == Scan(Ended, 0, [], data)
  {
    UpperSame(|data|);
    var chunks := [Chunk(UpperHex(|data|), [], data)];
    assert SpelledOne(chunks[0]);
    SpelledDecodes(chunks, tail, segments);
    assert Joined(chunks[1..]) == [] && data + [] == data;
  }

  /** The length of the chunk at `i` for the random number `r`. */
  function ChunkLength(content: string, i: nat, r: nat): (n: nat)
    requires i < |content|
    ensures 0 < n <= 199 && i + n <= |content|
  {
    var n := r % 199 + 1;
    if i + n > |content| then |content| - i else n
  }

  /** Every length up to 199 comes up, each for one random number in 199. */
  lemma {:induction false} EveryLength(content: string, i: nat, n: nat, r: nat)
    requires 0 < n <= 199 && i + 199 <= |content|
    ensures ChunkLength(content, i, r) == n <==> r % 199 == n - 1
  {
  }

  /** The content from `i` on, cut into chunks of at most 199 bytes as the random numbers say. */
  function Cut(content: string, i: nat, rand: nat -> nat, draws: nat): seq<Chunk>
    requires i <= |content|
    decreases |content| - i
  {
    if i == |content| then []
    else
      var n := ChunkLength(content, i, rand(draws));
      [Chunk(Hex(n), [], content[i..i + n])] + Cut(content, i + n, rand, draws + 1)
  }

  /** The body that the response is to be. */
  function ResponseBody(content: string, i: nat, rand: nat -> nat, draws: nat): Body
    requires i <= |content|
  {
    Body(Cut(content, i, rand, draws), LAST, CRLF)
  }

  ghost predicate Chunked(chunks: seq<Chunk>) {
    forall j :: 0 <= j < |chunks| ==> HoldsData(chunks[j])
  }

  lemma {:induction false} ChunkedCons(c: Chunk, rest: seq<Chunk>, chunks: seq<Chunk>)
    requires HoldsData(c) && Chunked(rest) && chunks == [c] + rest
    ensures Chunked(chunks)
  {
  }

  lemma {:induction false} CutFirst(content: string, i: nat, rand: nat -> nat, draws: nat) returns (c: Chunk)
    requires i < |content|
    ensures HoldsData(c) && c.data == content[i..i + ChunkLength(content, i, rand(draws))]
    ensures Cut(content, i, rand, draws)
         == [c] + Cut(content, i + ChunkLength(content, i, rand(draws)), rand, draws + 1)
  {
    var n := ChunkLength(content, i, rand(draws));
    c := Chunk(Hex(n), [], content[i..i + n]);
    HexChunk(c.data);
  }

  lemma {:induction false} CutChunked(content: string, i: nat, rand: nat -> nat, draws: nat)
    requires i <= |content|
    ensures Chunked(Cut(content, i, rand, draws))
    decreases |content| - i
  {
    if i == |content| {
    } else {
      var n := ChunkLength(content, i, rand(draws));
      var c := CutFirst(content, i, rand, draws);
      CutChunked(content, i + n, rand, draws + 1);
      ChunkedCons(c, Cut(content, i + n, rand, draws + 1), Cut(content, i, rand, draws));
    }
  }

  lemma {:induction false} CutJoined(content: string, i: nat, rand: nat -> nat, draws: nat)
    requires i <= |content|
    ensures Joined(Cut(content, i, rand, draws)) == content[i..]
    decreases |content| - i
  {
    if i == |content| {
      assert Cut(content, i, rand, draws) == [] && content[i..] == [];
    } else {
      var c := CutFirst(content, i, rand, draws);
      var next := i + ChunkLength(content, i, rand(draws));
      var rest, all := Cut(content, next, rand, draws + 1), Cut(content, i, rand, draws);
      assert all == [c] + rest && c.data == content[i..next];
      assert Joined(rest) == content[next..] by {
        CutJoined(content, next, rand, draws + 1);
      }
      JoinedCons(c, rest, all, content, i, next);
    }
  }

  lemma {:induction false} SliceSplit(s: string, i: nat, j: nat)
    requires i <= j <= |s|
    ensures s[i..j] + s[j..] == s[i..]
  {
  }

  lemma {:induction false} JoinedCons(c: Chunk, rest: seq<Chunk>, chunks: seq<Chunk>, content: string, i: nat, j: nat)
    requires chunks == [c] + rest && i <= j <= |content| && c.data == content[i..j] && Joined(rest) == content[j..]
    ensures Joined(chunks) == content[i..]
  {
    assert chunks[1..] == rest;
    SliceSplit(content, i, j);
  }

  function Appended(content: string, i: nat, response: string, n: nat): string
    requires i + n <= |content|
  {
    response + Hex(n) + CRLF + content[i..i + n] + CRLF
  }

  /** What has been built and what is to come make the response. */
  ghost predicate BuiltTo(content: string, i: nat, response: string, rand: nat -> nat, draws: nat, whole: string) {
    i <= |content| && response + Encoded(ResponseBody(content, i, rand, draws)) == whole
  }

  lemma {:induction false} BuiltMore(content: string, i: nat, response: string, rand: nat -> nat, draws: nat,
                                     whole: string, next: nat, longer: string)
    requires BuiltTo(content, i, response, rand, draws, whole) && i < |content|
    requires next == i + ChunkLength(content, i, rand(draws)) && longer == Appended(content, i, response, next - i)
    ensures BuiltTo(content, next, longer, rand, draws + 1, whole)
  {
    var c, rest := Chunk(Hex(next - i), [], content[i..next]), ResponseBody(content, next, rand, draws + 1);
    EncodedCons(c, rest);
    BytesAdded(response, c.size, c.extension, CRLF, c.data, CRLF);
    Associate(response, Bytes(c), Encoded(rest));
  }

  lemma {:induction false} BytesAdded(a: string, b: string, empty: string, c: string, d: string, e: string)
    requires empty == []
    ensures a + b + c + d + e == a + (b + empty + c + d + e)
  {
    assert b + empty == b;
  }

  /** One chunk more. */
  method AddChunk(content: string, start: nat, r: nat, response: string) returns (i: nat, longer: string)
    requires start < |content|
    ensures i == start + ChunkLength(content, start, r) && longer == Appended(content, start, response, i - start)
  {
    var n := r % 199 + 1;
    if start + n > |content| {
      n := |content| - start;
    }
    longer := response + Hex(n) + CRLF + content[start..start + n] + CRLF;
    i := start + n;
  }

  // ----- the buffer of the encoder -----

  /** What the coding adds to the data. */
  function Framing(chunks: seq<Chunk>): nat {
    if chunks == [] then 0 else |chunks[0].size| + |chunks[0].extension| + 4 + Framing(chunks[1..])
  }

  lemma {:induction false} EncodedLength(chunks: seq<Chunk>, last: Chunk, tail: string)
    ensures |Encoded(Body(chunks, last, tail))|
         == |Joined(chunks)| + Framing(chunks) + |last.size| + |last.extension| + 2 + |tail|
    decreases |chunks|
  {
    if chunks == [] {
    } else {
      EncodedLength(chunks[1..], last, tail);
      assert Pop(Body(chunks, last, tail)) == Body(chunks[1..], last, tail);
    }
  }

  const HEADERS := 73                        // the length of the header lines

  /** `buffer_length` */
  function BufferLength(contentLength: nat): nat {
    256 + contentLength + contentLength / 16
  }

  ghost predicate Fits(content: string, rand: nat -> nat) {
    HEADERS + |Encoded(ResponseBody(content, 0, rand, 0))| <= BufferLength(|content|)
  }

  lemma {:induction false} FramingBound(content: string, i: nat, rand: nat -> nat, draws: nat)
    requires i <= |content|
    ensures Framing(Cut(content, i, rand, draws)) <= 5 * (|content| - i)
    decreases |content| - i
  {
    if i == |content| {
    } else {
      var n := ChunkLength(content, i, rand(draws));
      FramingBound(content, i + n, rand, draws + 1);
      HexLength(n, if n < 16 then 1 else 2);
    }
  }

  lemma {:induction false} SmallestChunks(content: string, i: nat, draws: nat)
    requires i <= |content|
    ensures Framing(Cut(content, i, _ => 0, draws)) == 5 * (|content| - i)
    decreases |content| - i
  {
    if i == |content| {
    } else {
      SmallestChunks(content, i + 1, draws + 1);
    }
  }

  /** The response fits its buffer exactly when the coding adds no more than the margin. */
  lemma {:induction false} FitsExact(content: string, rand: nat -> nat)
    ensures Fits(content, rand) <==> Framing(Cut(content, 0, rand, 0)) <= 178 + |content| / 16
  {
    EncodedLength(Cut(content, 0, rand, 0), LAST, CRLF);
    CutJoined(content, 0, rand, 0);
  }

  /** Whatever the random numbers, the response fits its buffer: that holds up to 36 bytes of content. */
  lemma {:induction false} AlwaysFits(content: string)
    ensures (forall rand: nat -> nat :: Fits(content, rand)) <==> |content| <= 36
  {
    if |content| <= 36 {
      forall rand: nat -> nat ensures Fits(content, rand) {
        FitsExact(content, rand);
        FramingBound(content, 0, rand, 0);
      }
    } else {
      FitsExact(content, _ => 0);
      SmallestChunks(content, 0, 0);
    }
  }

  /** The response, and whether all of it was written inside the buffer. */
  method BuildChunkedResponse(content: string, rand: nat -> nat) returns (response: string, fits: bool)
    ensures Joined(ResponseBody(content, 0, rand, 0).chunks) == content && Proper(ResponseBody(content, 0, rand, 0))
    ensures response == Encoded(ResponseBody(content, 0, rand, 0))
    ensures fits <==> Framing(Cut(content, 0, rand, 0)) <= 178 + |content| / 16
  {
    response, fits := [], HEADERS <= BufferLength(|content|);
    var i, draws := 0, 0;
    ghost var whole := Encoded(ResponseBody(content, 0, rand, 0));
    assert response + whole == whole;
    while i < |content|
      invariant BuiltTo(content, i, response, rand, draws, whole)
      invariant fits <==> HEADERS + |response| <= BufferLength(|content|)
    {
      var next, longer := AddChunk(content, i, rand(draws), response);
      BuiltMore(content, i, response, rand, draws, whole, next, longer);
      i, response, draws := next, longer, draws + 1;
      fits := fits && HEADERS + |response| <= BufferLength(|content|);
    }
    assert Encoded(ResponseBody(content, i, rand, draws)) == "0\r\n\r\n";
    response := response + "0\r\n\r\n";
    fits := fits && HEADERS + |response| <= BufferLength(|content|);
    CutChunked(content, 0, rand, 0);
    CutJoined(content, 0, rand, 0);
    assert content[0..] == content;
    FitsExact(content, rand);
  }

  /** Whatever the chunk lengths and however the network cuts the response, the content comes back. */
  method RoundTrip(content: string, rand: nat -> nat, cut: string -> seq<Segment>) returns (received: string)
    requires forall s :: Concat(cut(s)) == s
    requires forall s, i :: 0 <= i < |cut(s)| ==> cut(s)[i] != []
    ensures received == content
  {
    var response, fits := BuildChunkedResponse(content, rand);
    var segments := cut(response);
    AllArrive(segments);
    Decodes(ResponseBody(content, 0, rand, 0), segments);
    var status;
    received, status := ReadBody(segments);
  }

  lemma {:induction false} AllArrive(segments: seq<string>)
    requires forall i :: 0 <= i < |segments| ==> segments[i] != []
    ensures Arriving(segments) == segments
  {
    if segments == [] {
    } else {
      AllArrive(segments[1..]);
    }
  }
}
