/** openusb_parse_data: unpacking little-endian descriptors into C structures, directed by a format. */
module Unpack {
  import Descriptors

  type Byte = Descriptors.Byte

  const U32: nat := 0x1_0000_0000

  /** One store into the destination: `width` bytes at address `addr`. */
  datatype Cell = Cell(addr: nat, width: nat, value: nat)

  /** `Fault` stands for a read behind the end of the source, or a store behind the end of the destination. */
  datatype Outcome =
    | Success(count: nat, cells: seq<Cell>)
    | NoResources(cells: seq<Cell>)
    | Fault(cells: seq<Cell>)

  /** The locals of the function: source position, `sourcelen`, destination address, `destlen`, stores so far;
      and the address where the destination ends. */
  datatype Machine = Machine(sp: nat, left: nat, dp: nat, room: nat, cells: seq<Cell>, end: nat)

  /** `n--` on a `uint32_t`. */
  function Decrement(n: nat): nat {
    if n == 0 then U32 - 1 else n - 1
  }

  /** The value of `n` bytes of the source from `sp` on, least significant byte first, or last. */
  function LittleEndian(src: seq<Byte>, sp: nat, n: nat): nat
    requires sp + n <= |src|
    decreases n
  {
    if n == 0 then 0 else src[sp] + 256 * LittleEndian(src, sp + 1, n - 1)
  }

  function BigEndian(src: seq<Byte>, sp: nat, n: nat): nat
    requires sp + n <= |src|
  {
    if n == 0 then 0 else BigEndian(src, sp, n - 1) * 256 + src[sp + n - 1]
  }

  function Width(c: char): nat {
    match c
    case 'b' => 1
    case 'w' => 2
    case 'd' => 4
    case 'W' => 2
    case 'D' => 4
    case _ => 0
  }

  predicate IsField(c: char) {
    Width(c) > 0
  }

  /** `dp` moved to where a value of the format character is stored: `dp & 1` is added for words, `dp & 2` for
      dwords. */
  function Aligned(c: char, dp: nat): nat {
    if c == 'w' || c == 'W' then dp + And1(dp)
    else if c == 'd' || c == 'D' then dp + And2(dp)
    else dp
  }

  /** `n & 1` and `n & 2`. */
  function And1(n: nat): (bit: nat)
    ensures bit < 2
  {
    if n == 0 then 0 else 1 - And1(n - 1)
  }

  function And2(n: nat): (bit: nat)
    ensures bit == 0 || bit == 2
  {
    if n < 2 then 0 else if n < 4 then 2 else And2(n - 4)
  }

  lemma {:induction false} And1IsModulo(n: nat)
    ensures And1(n) == n % 2
  {
    if n > 0 {
      And1IsModulo(n - 1);
    }
  }

  lemma {:induction false} And2IsModulo(n: nat)
    ensures And2(n) == if n % 4 >= 2 then 2 else 0
  {
    if n >= 4 {
      And2IsModulo(n - 4);
    }
  }

  /** The value stored for a field; upper-case characters keep the byte order of the CPU. */
  function Value(c: char, src: seq<Byte>, sp: nat, littleCpu: bool): nat
    requires sp + Width(c) <= |src|
  {
    if (c == 'W' || c == 'D') && !littleCpu then BigEndian(src, sp, Width(c)) else LittleEndian(src, sp, Width(c))
  }

  /** How one character of a format ends. */
  datatype Fate = Done | Short | Astray

  function FateAt(c: char, sp: nat, left: nat, dp: nat, room: nat, n: nat, end: nat): Fate {
    var w := Width(c);
    if w == 0 then Done
    else if left < w || room < w then Short
    else if sp + w > n || Aligned(c, dp) + w > end then Astray
    else Done
  }

  /** What a character makes of the locals when it is done. */
  function Next(c: char, m: Machine, src: seq<Byte>, littleCpu: bool): Machine
    requires FateAt(c, m.sp, m.left, m.dp, m.room, |src|, m.end) == Done
  {
    var w, at := Width(c), Aligned(c, m.dp);
    if c == '.' then m.(sp := m.sp + 1, left := Decrement(m.left))
    else if w == 0 then m
    else Machine(m.sp + w, m.left - w, at + w, m.room - w, m.cells + [Cell(at, w, Value(c, src, m.sp, littleCpu))],
                 m.end)
  }

  /** What the loop makes of the format from character `i` on. */
  function Run(format: string, i: nat, m: Machine, src: seq<Byte>, littleCpu: bool): Outcome
    requires i <= |format|
    decreases |format| - i
  {
    if i == |format| then Success(m.sp, m.cells)
    else match FateAt(format[i], m.sp, m.left, m.dp, m.room, |src|, m.end)
         case Short => NoResources(m.cells)
         case Astray => Fault(m.cells)
         case Done => Run(format, i + 1, Next(format[i], m, src, littleCpu), src, littleCpu)
  }

  function Start(src: seq<Byte>, dest: nat, destLen: nat): Machine {
    Machine(0, |src|, dest, destLen, [], dest + destLen)
  }

  function Unpacked(format: string, src: seq<Byte>, dest: nat, destLen: nat, littleCpu: bool): Outcome {
    Run(format, 0, Start(src, dest, destLen), src, littleCpu)
  }

  /** One pass of the loop. */
  lemma RunStep(format: string, i: nat, m: Machine, src: seq<Byte>, littleCpu: bool, out: Outcome)
    requires i < |format| && Run(format, i, m, src, littleCpu) == out
    ensures match FateAt(format[i], m.sp, m.left, m.dp, m.room, |src|, m.end)
            case Short => out == NoResources(m.cells)
            case Astray => out == Fault(m.cells)
            case Done => out == Run(format, i + 1, Next(format[i], m, src, littleCpu), src, littleCpu)
  {
  }

  /** openusb_parse_data. The destination is a memory of typed stores from address `dest` on. */
  method ParseData(format: string, source: seq<Byte>, dest: nat, destLen: nat, littleCpu: bool) returns (out: Outcome)
    requires |source| < U32 && destLen < U32
    ensures out == Unpacked(format, source, dest, destLen, littleCpu)
  {
    var sp: nat, left: nat, dp: nat, room: nat := 0, |source|, dest, destLen;
    var cells: seq<Cell> := [];
    var cp := 0;
    ghost var result := Unpacked(format, source, dest, destLen, littleCpu);
    while cp < |format|
      invariant 0 <= cp <= |format|
      invariant Run(format, cp, Machine(sp, left, dp, room, cells, dest + destLen), source, littleCpu) == result
    {
      var c := format[cp];
      ghost var m := Machine(sp, left, dp, room, cells, dest + destLen);
      RunStep(format, cp, m, source, littleCpu, result);
      if c == '.' {
        sp, left := sp + 1, Decrement(left);
      } else if c == 'b' || c == 'w' || c == 'd' || c == 'W' || c == 'D' {
        var n := Width(c);
        if left < n || room < n {
          return NoResources(cells);
        }
        if sp + n > |source| {
          return Fault(cells);
        }
        var bigEndian := (c == 'W' || c == 'D') && !littleCpu;
        var value := if bigEndian then BigEndian(source, sp, n) else LittleEndian(source, sp, n);
        if Aligned(c, dp) + n > dest + destLen {
          // Padding is not taken off `destlen`.
          return Fault(cells);
        }
        dp := Aligned(c, dp);
        cells := cells + [Cell(dp, n, value)];
        sp, left, dp, room := sp + n, left - n, dp + n, room - n;
      }
      assert Machine(sp, left, dp, room, cells, dest + destLen) == Next(c, m, source, littleCpu);
      cp := cp + 1;
    }
    return Success(sp, cells);
  }

  // ----- Positions, read off the format -----

  /** The bytes of the source that the first `i` characters pass over: fields and skips. */
  function Span(format: string, i: nat): nat
    requires i <= |format|
  {
    if i == 0 then 0 else Span(format, i - 1) + if format[i - 1] == '.' then 1 else Width(format[i - 1])
  }

  /** The same, up to the end of the last field among them. */
  function FieldsEnd(format: string, i: nat): (n: nat)
    requires i <= |format|
    ensures n <= Span(format, i)
  {
    if i == 0 then 0 else if IsField(format[i - 1]) then Span(format, i) else FieldsEnd(format, i - 1)
  }

  /** The bytes of the destination that their fields take, padding not counted. */
  function Needed(format: string, i: nat): nat
    requires i <= |format|
  {
    if i == 0 then 0 else Needed(format, i - 1) + Width(format[i - 1])
  }

  /** Where the destination must reach for them: fields and padding from `dest` on. */
  function Extent(format: string, i: nat, dest: nat): nat
    requires i <= |format|
  {
    if i == 0 then dest
    else Aligned(format[i - 1], Extent(format, i - 1, dest)) + Width(format[i - 1])
  }

  /** What they leave of `sourcelen`, for a source of `n` bytes. */
  function LeftAt(format: string, i: nat, n: nat): nat
    requires i <= |format|
  {
    if i == 0 then n
    else
      var left, c := LeftAt(format, i - 1, n), format[i - 1];
      if c == '.' then Decrement(left) else if Width(c) <= left then left - Width(c) else 0
  }

  lemma {:induction false} Monotone(format: string, i: nat, j: nat, dest: nat)
    requires i <= j <= |format|
    ensures Span(format, i) <= Span(format, j) && FieldsEnd(format, i) <= FieldsEnd(format, j)
    ensures Needed(format, i) <= Needed(format, j) && Extent(format, i, dest) <= Extent(format, j, dest)
    ensures dest + Needed(format, i) <= Extent(format, i, dest)
    decreases j
  {
    if i < j {
      Monotone(format, i, j - 1, dest);
    } else if i > 0 {
      Monotone(format, i - 1, i - 1, dest);
    }
  }

  /** Within the source, what is left is the rest of it. */
  lemma {:induction false} LeftWithin(format: string, i: nat, n: nat)
    requires i <= |format| && Span(format, i) <= n
    ensures LeftAt(format, i, n) == n - Span(format, i)
  {
    if i > 0 {
      LeftWithin(format, i - 1, n);
    }
  }

  // ----- Where a format ends -----

  /** What becomes of character `i` when all before it are done. */
  function FateOf(format: string, i: nat, n: nat, dest: nat, destLen: nat): Fate
    requires i < |format|
  {
    if Needed(format, i) > destLen then Short
    else FateAt(format[i], Span(format, i), LeftAt(format, i, n), Extent(format, i, dest), destLen - Needed(format, i),
                n, dest + destLen)
  }

  predicate DoneUpTo(format: string, i: nat, n: nat, dest: nat, destLen: nat)
    requires i <= |format|
  {
    i == 0 || (DoneUpTo(format, i - 1, n, dest, destLen) && FateOf(format, i - 1, n, dest, destLen) == Done)
  }

  /** The locals are what the first `i` characters make of them. */
  predicate IsAt(m: Machine, format: string, i: nat, n: nat, dest: nat, destLen: nat)
    requires i <= |format|
  {
    m.sp == Span(format, i) && m.left == LeftAt(format, i, n) && m.dp == Extent(format, i, dest) &&
    m.room + Needed(format, i) == destLen && m.end == dest + destLen
  }

  function Ending(out: Outcome): Fate {
    match out
    case Success(_, _) => Done
    case NoResources(_) => Short
    case Fault(_) => Astray
  }

  lemma IsAtNext(m: Machine, format: string, i: nat, src: seq<Byte>, dest: nat, destLen: nat, littleCpu: bool)
    requires i < |format| && IsAt(m, format, i, |src|, dest, destLen)
    ensures FateOf(format, i, |src|, dest, destLen) == FateAt(format[i], m.sp, m.left, m.dp, m.room, |src|, m.end)
    ensures FateOf(format, i, |src|, dest, destLen) == Done ==>
              IsAt(Next(format[i], m, src, littleCpu), format, i + 1, |src|, dest, destLen)
  {
  }

  /** The first character that is not done decides. */
  lemma {:induction false} RunEnds(format: string, i: nat, m: Machine, src: seq<Byte>, dest: nat, destLen: nat,
                                   littleCpu: bool)
    returns (k: nat)
    requires i <= |format| && IsAt(m, format, i, |src|, dest, destLen) && DoneUpTo(format, i, |src|, dest, destLen)
    ensures i <= k <= |format| && DoneUpTo(format, k, |src|, dest, destLen)
    ensures var out := Run(format, i, m, src, littleCpu);
            if k == |format| then out.Success?
            else Ending(out) == FateOf(format, k, |src|, dest, destLen) != Done
    decreases |format| - i
  {
    k := i;
    if i < |format| {
      IsAtNext(m, format, i, src, dest, destLen, littleCpu);
      if FateOf(format, i, |src|, dest, destLen) == Done {
        k := RunEnds(format, i + 1, Next(format[i], m, src, littleCpu), src, dest, destLen, littleCpu);
      }
    }
  }

  lemma {:induction false} DoneBefore(format: string, i: nat, j: nat, n: nat, dest: nat, destLen: nat)
    requires i <= j <= |format| && DoneUpTo(format, j, n, dest, destLen)
    ensures DoneUpTo(format, i, n, dest, destLen)
    ensures i < j ==> FateOf(format, i, n, dest, destLen) == Done
    decreases j
  {
    if i < j {
      DoneBefore(format, if i < j - 1 then i else j - 1, j - 1, n, dest, destLen);
    }
  }

  /** One character more is done if and only if a field ends within the source and, padded, within the destination. */
  lemma DoneMore(format: string, i: nat, n: nat, dest: nat, destLen: nat)
    requires i < |format| && Extent(format, i, dest) <= dest + destLen
    ensures FateOf(format, i, n, dest, destLen) == Done <==>
            IsField(format[i]) ==> Span(format, i + 1) <= n && Extent(format, i + 1, dest) <= dest + destLen
  {
    Monotone(format, i, i + 1, dest);
    if Span(format, i) <= n {
      LeftWithin(format, i, n);
    }
  }

  /** The first `i` characters are done if and only if the source reaches to the end of their last field and the
      destination holds their fields with the padding. */
  lemma {:induction false} DoneIff(format: string, i: nat, n: nat, dest: nat, destLen: nat)
    requires i <= |format|
    ensures DoneUpTo(format, i, n, dest, destLen) <==>
            FieldsEnd(format, i) <= n && Extent(format, i, dest) <= dest + destLen
  {
    if i > 0 {
      DoneIff(format, i - 1, n, dest, destLen);
      Monotone(format, i - 1, i, dest);
      if Extent(format, i - 1, dest) <= dest + destLen {
        DoneMore(format, i - 1, n, dest, destLen);
      }
    }
  }

  /** Fewer characters than it takes to skip until the wrapped length runs out. */
  const MAX_FORMAT: nat := U32 - 4

  /** Past the source the length has wrapped around. */
  lemma {:induction false} LeftPast(format: string, i: nat, n: nat, dest: nat, destLen: nat)
    requires i <= |format| && i <= MAX_FORMAT && n < Span(format, i) && DoneUpTo(format, i, n, dest, destLen)
    ensures Span(format, i) - n <= i && LeftAt(format, i, n) == U32 - (Span(format, i) - n)
  {
    if Span(format, i - 1) <= n {
      LeftWithin(format, i - 1, n);
    } else {
      LeftPast(format, i - 1, n, dest, destLen);
    }
  }

  /** Read off the format: what comes before the field at `i` is unpacked, the field is affordable by the lengths kept,
      and it is read behind the source or stored behind the destination. */
  predicate GoesAstray(format: string, i: int, n: nat, dest: nat, destLen: nat) {
    0 <= i < |format| && IsField(format[i]) &&
    FieldsEnd(format, i) <= n && Extent(format, i, dest) <= dest + destLen && Needed(format, i + 1) <= destLen &&
    if Span(format, i) > n then Width(format[i]) <= LeftAt(format, i, n)
    else Span(format, i + 1) <= n && Extent(format, i + 1, dest) > dest + destLen
  }

  lemma AstrayAt(format: string, i: nat, n: nat, dest: nat, destLen: nat)
    requires i < |format| && DoneUpTo(format, i, n, dest, destLen)
    ensures GoesAstray(format, i, n, dest, destLen) <==> FateOf(format, i, n, dest, destLen) == Astray
  {
    DoneIff(format, i, n, dest, destLen);
    if Span(format, i) <= n {
      LeftWithin(format, i, n);
    }
  }

  /** A format succeeds if and only if the source reaches to the end of its last field and the destination holds its
      fields with their padding. It goes outside its memory if and only if some field does so. */
  lemma SucceedsWhenEnough(format: string, src: seq<Byte>, dest: nat, destLen: nat, littleCpu: bool)
    ensures var out, all := Unpacked(format, src, dest, destLen, littleCpu), |format|;
            (out.Success? <==> FieldsEnd(format, all) <= |src| && Extent(format, all, dest) <= dest + destLen) &&
            (out.Fault? <==> exists i :: GoesAstray(format, i, |src|, dest, destLen))
  {
    var n, all := |src|, |format|;
    var k := RunEnds(format, 0, Start(src, dest, destLen), src, dest, destLen, littleCpu);
    DoneIff(format, all, n, dest, destLen);
    if k < all && DoneUpTo(format, all, n, dest, destLen) {
      DoneBefore(format, k, all, n, dest, destLen);
    }
    if k < all {
      AstrayAt(format, k, n, dest, destLen);
    }
    if i :| GoesAstray(format, i, n, dest, destLen) {
      OnlyAstray(format, i, k, n, dest, destLen);
    }
  }

  /** The field that goes astray is the first that is not done. */
  lemma OnlyAstray(format: string, i: nat, k: nat, n: nat, dest: nat, destLen: nat)
    requires GoesAstray(format, i, n, dest, destLen) && k <= |format|
    requires DoneUpTo(format, k, n, dest, destLen)
    requires k < |format| ==> FateOf(format, k, n, dest, destLen) != Done
    ensures i == k
  {
    DoneIff(format, i, n, dest, destLen);
    AstrayAt(format, i, n, dest, destLen);
    if i < k {
      DoneBefore(format, i, k, n, dest, destLen);
    } else if k < i {
      DoneBefore(format, k, i, n, dest, destLen);
    }
  }

  /** Padding can run over the end: a byte and a word into three bytes at an even address. */
  lemma PaddingRunsOver(src: seq<Byte>, littleCpu: bool)
    requires |src| == 3
    ensures Unpacked("bw", src, 0, 3, littleCpu).Fault? && Needed("bw", 2) == 3
  {
    SucceedsWhenEnough("bw", src, 0, 3, littleCpu);
    And1IsModulo(1);
    assert Extent("bw", 1, 0) == 1 && Span("bw", 1) == 1 && FieldsEnd("bw", 1) == 1 && Needed("bw", 1) == 1;
    assert GoesAstray("bw", 1, 3, 0, 3);
  }

  // ----- Skips -----

  /** A skip where the source has ended, and a field `j` behind it. */
  predicate SkipsPast(format: string, i: int, j: int, n: nat) {
    0 <= i < j < |format| && format[i] == '.' && Span(format, i) == n && IsField(format[j])
  }

  /** With no field ending behind `n`, the position passes `n` by a skip there. */
  lemma {:induction false} Crossing(format: string, j: nat, n: nat) returns (i: nat)
    requires j <= |format| && FieldsEnd(format, j) <= n < Span(format, j)
    ensures i < j && format[i] == '.' && Span(format, i) == n
  {
    if Span(format, j - 1) <= n {
      i := j - 1;
    } else {
      i := Crossing(format, j - 1, n);
    }
  }

  /** The first field behind a skip. */
  lemma {:induction false} FirstField(format: string, i: nat, j: nat, k: nat) returns (f: nat)
    requires i < j <= k < |format| && IsField(format[k]) && !IsField(format[i]) &&
             FieldsEnd(format, j) == FieldsEnd(format, i)
    ensures j <= f < |format| && IsField(format[f]) && FieldsEnd(format, f) == FieldsEnd(format, i)
    decreases k - j
  {
    if IsField(format[j]) {
      f := j;
    } else {
      f := FirstField(format, i, j + 1, k);
    }
  }

  lemma AstrayBySkip(format: string, j: nat, n: nat, dest: nat, destLen: nat) returns (i: nat)
    requires GoesAstray(format, j, n, dest, destLen) && Extent(format, j + 1, dest) <= dest + destLen
    ensures SkipsPast(format, i, j, n)
  {
    i := Crossing(format, j, n);
  }

  lemma SkipGoesAstray(format: string, i: nat, j: nat, n: nat, dest: nat, destLen: nat) returns (f: nat)
    requires SkipsPast(format, i, j, n) && |format| <= MAX_FORMAT && n < U32
    requires Extent(format, |format|, dest) <= dest + destLen
    ensures GoesAstray(format, f, n, dest, destLen)
  {
    f := FirstField(format, i, i + 1, j);
    SpanGrows(format, i, f);
    EndsWithin(format, f, dest, destLen);
    DoneIff(format, f, n, dest, destLen);
    LeftPast(format, f, n, dest, destLen);
  }

  lemma SpanGrows(format: string, i: nat, f: nat)
    requires i < f <= |format| && format[i] == '.'
    ensures Span(format, i) < Span(format, f)
  {
    Monotone(format, i + 1, f, 0);
  }

  lemma EndsWithin(format: string, f: nat, dest: nat, destLen: nat)
    requires f < |format| && Extent(format, |format|, dest) <= dest + destLen
    ensures Extent(format, f, dest) <= dest + destLen && Extent(format, f + 1, dest) <= dest + destLen
    ensures Needed(format, f + 1) <= destLen
  {
    Monotone(format, f, |format|, dest);
    Monotone(format, f + 1, |format|, dest);
    Monotone(format, f + 1, f + 1, dest);
  }

  /** With room enough in the destination, a format reads behind its source if and only if it skips where the source has
      ended and has a field behind that. */
  lemma SkipsPastIff(format: string, src: seq<Byte>, dest: nat, destLen: nat, littleCpu: bool)
    requires |src| < U32 && |format| <= MAX_FORMAT && Extent(format, |format|, dest) <= dest + destLen
    ensures Unpacked(format, src, dest, destLen, littleCpu).Fault? <==> exists i, j :: SkipsPast(format, i, j, |src|)
  {
    SucceedsWhenEnough(format, src, dest, destLen, littleCpu);
    AstrayIffSkips(format, |src|, dest, destLen);
  }

  lemma AstrayIffSkips(format: string, n: nat, dest: nat, destLen: nat)
    requires |format| <= MAX_FORMAT && n < U32
    requires Extent(format, |format|, dest) <= dest + destLen
    ensures (exists i :: GoesAstray(format, i, n, dest, destLen)) <==> exists i, j :: SkipsPast(format, i, j, n)
  {
    if j :| GoesAstray(format, j, n, dest, destLen) {
      EndsWithin(format, j, dest, destLen);
      var i := AstrayBySkip(format, j, n, dest, destLen);
    }
    if i, j :| SkipsPast(format, i, j, n) {
      var f := SkipGoesAstray(format, i, j, n, dest, destLen);
    }
  }

  /** A skip is not checked: it is counted even when the source has no byte left. */
  lemma SkipIsUnchecked(dest: nat, destLen: nat, littleCpu: bool)
    ensures Unpacked(".", [], dest, destLen, littleCpu) == Success(1, [])
    ensures destLen > 0 ==> Unpacked(".b", [], dest, destLen, littleCpu).Fault?
  {
    assert Start([], dest, destLen).left == 0;
  }

  // ----- Unpacking inverts packing -----

  /** One field of a packed descriptor, or a byte the format skips. */
  datatype Item = Field8(v: nat) | Field16(v: nat) | Field32(v: nat) | Skip(b: Byte)

  predicate Fits(item: Item) {
    match item
    case Field8(v) => v < 256
    case Field16(v) => v < 0x1_0000
    case Field32(v) => v < U32
    case Skip(_) => true
  }

  function CharOf(item: Item): char {
    match item
    case Field8(_) => 'b'
    case Field16(_) => 'w'
    case Field32(_) => 'd'
    case Skip(_) => '.'
  }

  function FormatOf(items: seq<Item>): string {
    seq(|items|, i requires 0 <= i < |items| => CharOf(items[i]))
  }

  function Bytes(v: nat, n: nat): (s: seq<Byte>)
    ensures |s| == n
  {
    if n == 0 then [] else [v % 256] + Bytes(v / 256, n - 1)
  }

  function Packed(item: Item): seq<Byte> {
    match item
    case Field8(v) => Bytes(v, 1)
    case Field16(v) => Bytes(v, 2)
    case Field32(v) => Bytes(v, 4)
    case Skip(b) => [b]
  }

  /** The bytes of the first `i` items, without any padding. */
  function Pack(items: seq<Item>, i: nat): (s: seq<Byte>)
    requires i <= |items|
    ensures |s| == Span(FormatOf(items), i)
  {
    if i == 0 then [] else Pack(items, i - 1) + Packed(items[i - 1])
  }

  /** Where the first `i` fields end when each goes to where `align` puts it, and their stores. */
  function EndOf(items: seq<Item>, i: nat, dp: nat, align: (char, nat) -> nat): nat
    requires i <= |items|
  {
    if i == 0 then dp
    else
      var c := CharOf(items[i - 1]);
      if IsField(c) then align(c, EndOf(items, i - 1, dp, align)) + Width(c) else EndOf(items, i - 1, dp, align)
  }

  function Stores(items: seq<Item>, i: nat, dp: nat, align: (char, nat) -> nat): seq<Cell>
    requires i <= |items|
  {
    if i == 0 then []
    else
      var item, c := items[i - 1], CharOf(items[i - 1]);
      Stores(items, i - 1, dp, align) +
      if item.Skip? then [] else [Cell(align(c, EndOf(items, i - 1, dp, align)), Width(c), item.v)]
  }

  /** Where a C compiler puts the next member: at the next multiple of its size. */
  function Natural(c: char, dp: nat): nat {
    if c == 'w' then dp + dp % 2
    else if c == 'd' then dp + (4 - dp % 4) % 4
    else dp
  }

  /** The source has these bytes at `sp`. */
  ghost predicate Reads(src: seq<Byte>, sp: nat, bytes: seq<Byte>) {
    sp + |bytes| <= |src| && src[sp..sp + |bytes|] == bytes
  }

  lemma ReadsParts(src: seq<Byte>, sp: nat, a: seq<Byte>, b: seq<Byte>)
    requires Reads(src, sp, a + b)
    ensures Reads(src, sp, a) && Reads(src, sp + |a|, b)
  {
    var both := src[sp..sp + |a + b|];
    assert both == a + b;
    assert both[..|a|] == a && both[|a|..] == b;
    assert src[sp..sp + |a|] == both[..|a|];
    assert src[sp + |a|..sp + |a| + |b|] == both[|a|..];
  }

  function Power256(n: nat): nat {
    if n == 0 then 1 else 256 * Power256(n - 1)
  }

  lemma {:induction false} LittleEndianBytes(v: nat, n: nat, src: seq<Byte>, sp: nat)
    requires v < Power256(n) && Reads(src, sp, Bytes(v, n))
    ensures LittleEndian(src, sp, n) == v
    decreases n
  {
    if n > 0 {
      assert v / 256 < Power256(n - 1);
      assert Bytes(v, n) == [v % 256] + Bytes(v / 256, n - 1);
      ReadsParts(src, sp, [v % 256], Bytes(v / 256, n - 1));
      assert src[sp] == src[sp..sp + 1][0];
      LittleEndianBytes(v / 256, n - 1, src, sp + 1);
    }
  }

  /** The source has the value of a field at `sp`. */
  predicate HasValue(src: seq<Byte>, sp: nat, item: Item) {
    item.Skip? || (sp + Width(CharOf(item)) <= |src| && LittleEndian(src, sp, Width(CharOf(item))) == item.v)
  }

  lemma PackedValue(item: Item, src: seq<Byte>, sp: nat)
    requires Fits(item) && Reads(src, sp, Packed(item))
    ensures HasValue(src, sp, item)
  {
    if !item.Skip? {
      assert Power256(1) == 256 && Power256(2) == 0x1_0000 && Power256(4) == U32 by {
        assert Power256(3) == 0x100_0000;
      }
      LittleEndianBytes(item.v, Width(CharOf(item)), src, sp);
    }
  }

  lemma {:induction false} PackBefore(items: seq<Item>, i: nat, j: nat, src: seq<Byte>)
    requires i < j <= |items| && Reads(src, 0, Pack(items, j))
    ensures Reads(src, Span(FormatOf(items), i), Packed(items[i]))
    decreases j
  {
    PackSplit(items, j, src);
    if i < j - 1 {
      PackBefore(items, i, j - 1, src);
    }
  }

  lemma PackSplit(items: seq<Item>, j: nat, src: seq<Byte>)
    requires 0 < j <= |items| && Reads(src, 0, Pack(items, j))
    ensures Reads(src, 0, Pack(items, j - 1)) && Reads(src, Span(FormatOf(items), j - 1), Packed(items[j - 1]))
  {
    ReadsParts(src, 0, Pack(items, j - 1), Packed(items[j - 1]));
  }

  /** What unpacking the first `i` items has made of the locals. */
  predicate UnpackedTo(m: Machine, items: seq<Item>, i: nat, n: nat, dest: nat, destLen: nat)
    requires i <= |items|
  {
    IsAt(m, FormatOf(items), i, n, dest, destLen) && m.cells == Stores(items, i, dest, Aligned)
  }

  lemma {:induction false} EndIsExtent(items: seq<Item>, i: nat, dest: nat)
    requires i <= |items|
    ensures EndOf(items, i, dest, Aligned) == Extent(FormatOf(items), i, dest)
  {
    if i > 0 {
      EndIsExtent(items, i - 1, dest);
    }
  }

  /** Field `j` is there and has its room. */
  predicate Unpacks(items: seq<Item>, j: nat, src: seq<Byte>, dest: nat, destLen: nat)
    requires j < |items|
  {
    HasValue(src, Span(FormatOf(items), j), items[j]) && FateOf(FormatOf(items), j, |src|, dest, destLen) == Done
  }

  /** From anywhere in a run: every source byte is consumed once and every field is stored with its value, in order. */
  lemma {:induction false} UnpackFrom(items: seq<Item>, i: nat, m: Machine, src: seq<Byte>, dest: nat, destLen: nat,
                                      littleCpu: bool, out: Outcome)
    requires i <= |items| && UnpackedTo(m, items, i, |src|, dest, destLen)
    requires forall j :: i <= j < |items| ==> Unpacks(items, j, src, dest, destLen)
    requires Run(FormatOf(items), i, m, src, littleCpu) == out
    ensures out == Success(Span(FormatOf(items), |items|), Stores(items, |items|, dest, Aligned))
    decreases |items| - i
  {
    if i < |items| {
      var m' := NextUnpacked(items, i, m, src, dest, destLen, littleCpu, out);
      UnpackFrom(items, i + 1, m', src, dest, destLen, littleCpu, out);
    }
  }

  lemma NextUnpacked(items: seq<Item>, i: nat, m: Machine, src: seq<Byte>, dest: nat, destLen: nat, littleCpu: bool,
                     out: Outcome)
    returns (m': Machine)
    requires i < |items| && UnpackedTo(m, items, i, |src|, dest, destLen)
    requires Unpacks(items, i, src, dest, destLen)
    requires Run(FormatOf(items), i, m, src, littleCpu) == out
    ensures UnpackedTo(m', items, i + 1, |src|, dest, destLen)
    ensures Run(FormatOf(items), i + 1, m', src, littleCpu) == out
  {
    var format := FormatOf(items);
    IsAtNext(m, format, i, src, dest, destLen, littleCpu);
    EndIsExtent(items, i, dest);
    m' := Next(format[i], m, src, littleCpu);
    NextStores(items, i, m, src, dest, destLen, littleCpu);
    RunStep(format, i, m, src, littleCpu, out);
  }

  lemma NextStores(items: seq<Item>, i: nat, m: Machine, src: seq<Byte>, dest: nat, destLen: nat, littleCpu: bool)
    requires i < |items| && m.cells == Stores(items, i, dest, Aligned) && m.dp == EndOf(items, i, dest, Aligned)
    requires HasValue(src, m.sp, items[i])
    requires FateAt(CharOf(items[i]), m.sp, m.left, m.dp, m.room, |src|, m.end) == Done
    ensures Next(CharOf(items[i]), m, src, littleCpu).cells == Stores(items, i + 1, dest, Aligned)
  {
  }

  /** Unpacking inverts packing: for every descriptor and any bytes behind it, the count is the number of bytes packed
      and the stores are its fields with their values, if and only if the destination has room for fields and
      padding. */
  lemma UnpackInvertsPack(items: seq<Item>, rest: seq<Byte>, dest: nat, destLen: nat, littleCpu: bool)
    requires (forall i :: 0 <= i < |items| ==> Fits(items[i])) && |Pack(items, |items|) + rest| < U32
    ensures var format, packed := FormatOf(items), Pack(items, |items|);
            Unpacked(format, packed + rest, dest, destLen, littleCpu) ==
            Success(|packed|, Stores(items, |items|, dest, Aligned)) <==>
            Extent(format, |items|, dest) <= dest + destLen
  {
    var format, packed := FormatOf(items), Pack(items, |items|);
    var src := packed + rest;
    SucceedsWhenEnough(format, src, dest, destLen, littleCpu);
    if Extent(format, |items|, dest) <= dest + destLen {
      DoneIff(format, |items|, |src|, dest, destLen);
      forall j | 0 <= j < |items| ensures Unpacks(items, j, src, dest, destLen) {
        DoneBefore(format, j, |items|, |src|, dest, destLen);
        PackBefore(items, j, |items|, src);
        PackedValue(items[j], src, Span(format, j));
      }
      var out := Unpacked(format, src, dest, destLen, littleCpu);
      UnpackFrom(items, 0, Start(src, dest, destLen), src, dest, destLen, littleCpu, out);
    }
  }

  // ----- Members of C structures -----

  /** Every dword among the first `i` items comes up at an even address. */
  predicate DwordsEven(items: seq<Item>, i: nat, dp: nat)
    requires i <= |items|
  {
    i == 0 ||
    (DwordsEven(items, i - 1, dp) && (items[i - 1].Field32? ==> EndOf(items, i - 1, dp, Aligned) % 2 == 0))
  }

  lemma SamePlace(item: Item, dp: nat)
    requires !item.Skip?
    ensures Aligned(CharOf(item), dp) == Natural(CharOf(item), dp) <==> (item.Field32? ==> dp % 2 == 0)
  {
    And1IsModulo(dp);
    And2IsModulo(dp);
    if item.Field32? {
      var q, r := dp / 4, dp % 4;
      assert dp == 2 * (2 * q) + r;
      assert dp % 2 == r % 2;
    }
  }

  lemma {:induction false} StoresLength(items: seq<Item>, i: nat, dp: nat)
    requires i <= |items|
    ensures |Stores(items, i, dp, Aligned)| == |Stores(items, i, dp, Natural)|
  {
    if i > 0 {
      StoresLength(items, i - 1, dp);
    }
  }

  lemma SnocEqual<T>(s: seq<T>, x: T, t: seq<T>, y: T)
    requires |s| == |t|
    ensures s + [x] == t + [y] <==> s == t && x == y
  {
    assert (s + [x])[..|s|] == s && (t + [y])[..|t|] == t && (s + [x])[|s|] == x && (t + [y])[|t|] == y;
  }

  /** The stores hit the members of the C structure if and only if no dword comes up at an odd address;
      for the byte and word formats the library uses that is always so. */
  lemma {:induction false} StoresAreNatural(items: seq<Item>, i: nat, dp: nat)
    requires i <= |items|
    ensures Stores(items, i, dp, Aligned) == Stores(items, i, dp, Natural) <==> DwordsEven(items, i, dp)
    ensures DwordsEven(items, i, dp) ==> EndOf(items, i, dp, Aligned) == EndOf(items, i, dp, Natural)
  {
    if i > 0 {
      var item, c, w := items[i - 1], CharOf(items[i - 1]), Width(CharOf(items[i - 1]));
      StoresAreNatural(items, i - 1, dp);
      if !item.Skip? {
        var a, b := EndOf(items, i - 1, dp, Aligned), EndOf(items, i - 1, dp, Natural);
        StoresLength(items, i - 1, dp);
        SnocEqual(Stores(items, i - 1, dp, Aligned), Cell(Aligned(c, a), w, item.v),
                  Stores(items, i - 1, dp, Natural), Cell(Natural(c, b), w, item.v));
        SamePlace(item, a);
      }
    }
  }

  lemma {:induction false} NoDwords(items: seq<Item>, dp: nat)
    requires forall i :: 0 <= i < |items| ==> !items[i].Field32?
    ensures Stores(items, |items|, dp, Aligned) == Stores(items, |items|, dp, Natural)
  {
    StoresAreNatural(items, |items|, dp);
    EvenWithoutDwords(items, |items|, dp);
  }

  lemma {:induction false} EvenWithoutDwords(items: seq<Item>, i: nat, dp: nat)
    requires i <= |items| && forall j :: 0 <= j < |items| ==> !items[j].Field32?
    ensures DwordsEven(items, i, dp)
  {
    if i > 0 {
      EvenWithoutDwords(items, i - 1, dp);
    }
  }

  // ----- Byte order -----

  function BigBytes(v: nat, n: nat): (s: seq<Byte>)
    ensures |s| == n
  {
    if n == 0 then [] else BigBytes(v / 256, n - 1) + [v % 256]
  }

  /** The memory of a value of `n` bytes. */
  function InMemory(v: nat, n: nat, littleCpu: bool): seq<Byte> {
    if littleCpu then Bytes(v, n) else BigBytes(v, n)
  }

  lemma {:induction false} BytesOfLittle(src: seq<Byte>, sp: nat, n: nat)
    requires sp + n <= |src|
    ensures Bytes(LittleEndian(src, sp, n), n) == src[sp..sp + n] && LittleEndian(src, sp, n) < Power256(n)
    decreases n
  {
    if n > 0 {
      var rest := LittleEndian(src, sp + 1, n - 1);
      BytesOfLittle(src, sp + 1, n - 1);
      LowByte(rest, src[sp]);
      assert LittleEndian(src, sp, n) == src[sp] + 256 * rest;
      assert src[sp..sp + n] == [src[sp]] + src[sp + 1..sp + 1 + (n - 1)];
    }
  }

  lemma {:induction false} BytesOfBig(src: seq<Byte>, sp: nat, n: nat)
    requires sp + n <= |src|
    ensures BigBytes(BigEndian(src, sp, n), n) == src[sp..sp + n] && BigEndian(src, sp, n) < Power256(n)
  {
    if n > 0 {
      BytesOfBig(src, sp, n - 1);
      LowByte(BigEndian(src, sp, n - 1), src[sp + n - 1]);
      assert src[sp..sp + n] == src[sp..sp + (n - 1)] + [src[sp + n - 1]];
    }
  }

  lemma LowByte(high: nat, low: Byte)
    ensures (low + 256 * high) % 256 == low && (low + 256 * high) / 256 == high
  {
  }

  /** The undocumented characters copy: the memory of what they store is the source, whatever the CPU. */
  lemma CopiesAsIs(c: char, src: seq<Byte>, sp: nat, littleCpu: bool)
    requires (c == 'W' || c == 'D') && sp + Width(c) <= |src|
    ensures var n := if c == 'W' then 2 else 4;
            Width(c) == n && Value(c, src, sp, littleCpu) < Power256(n) &&
            InMemory(Value(c, src, sp, littleCpu), n, littleCpu) == src[sp..sp + n]
  {
    BytesOfLittle(src, sp, Width(c));
    BytesOfBig(src, sp, Width(c));
  }

  /** The others convert: they store the number whose bytes the source has with the least significant first, whatever
      the CPU. */
  lemma ConvertsToCpu(c: char, src: seq<Byte>, sp: nat, littleCpu: bool)
    requires (c == 'b' || c == 'w' || c == 'd') && sp + Width(c) <= |src|
    ensures var n := if c == 'b' then 1 else if c == 'w' then 2 else 4;
            Width(c) == n && Value(c, src, sp, littleCpu) < Power256(n) &&
            Bytes(Value(c, src, sp, littleCpu), n) == src[sp..sp + n]
  {
    BytesOfLittle(src, sp, Width(c));
  }

  // ----- What the documentation says -----

  /** The documented descriptor "bwbd": its dword comes up at an odd address and is stored at 5, not at 8. */
  lemma {:induction false} DocumentedDescriptor(a: Byte, b: nat, c: Byte, d: nat) returns (items: seq<Item>)
    ensures items == [Field8(a), Field16(b), Field8(c), Field32(d)] && FormatOf(items) == "bwbd"
    ensures Stores(items, 4, 0, Aligned) == [Cell(0, 1, a), Cell(2, 2, b), Cell(4, 1, c), Cell(5, 4, d)]
    ensures Stores(items, 4, 0, Natural) == [Cell(0, 1, a), Cell(2, 2, b), Cell(4, 1, c), Cell(8, 4, d)]
  {
    items := [Field8(a), Field16(b), Field8(c), Field32(d)];
    And1IsModulo(1);
    And2IsModulo(5);
    assert EndOf(items, 1, 0, Aligned) == EndOf(items, 1, 0, Natural) == 1;
    assert EndOf(items, 2, 0, Aligned) == EndOf(items, 2, 0, Natural) == 4;
    assert EndOf(items, 3, 0, Aligned) == EndOf(items, 3, 0, Natural) == 5;
    assert Stores(items, 1, 0, Aligned) == Stores(items, 1, 0, Natural) == [Cell(0, 1, a)];
    assert Stores(items, 2, 0, Aligned) == Stores(items, 2, 0, Natural) == [Cell(0, 1, a), Cell(2, 2, b)];
    assert Stores(items, 3, 0, Aligned) == Stores(items, 3, 0, Natural) ==
           [Cell(0, 1, a), Cell(2, 2, b), Cell(4, 1, c)];
  }

  predicate Ignored(c: char) {
    c != '.' && !IsField(c)
  }

  /** The next character that is not ignored, or the end. */
  function Skipping(format: string, i: nat): (j: nat)
    requires i <= |format|
    ensures i <= j <= |format|
    decreases |format| - i
  {
    if i < |format| && Ignored(format[i]) then Skipping(format, i + 1) else i
  }

  /** Other characters are ignored; the documented counts, as in "2b4dw", are among them. */
  lemma {:induction false} OthersIgnored(format: string, i: nat, m: Machine, src: seq<Byte>, littleCpu: bool)
    requires i <= |format|
    ensures Run(format, i, m, src, littleCpu) == Run(format, Skipping(format, i), m, src, littleCpu)
    decreases |format| - i
  {
    if i < |format| && Ignored(format[i]) {
      OthersIgnored(format, i + 1, m, src, littleCpu);
    }
  }

  /** So "2b" unpacks one byte. */
  lemma CountsIgnored(src: seq<Byte>, dest: nat, destLen: nat, littleCpu: bool)
    requires |src| >= 2 && destLen >= 2
    ensures Unpacked("2b", src, dest, destLen, littleCpu) == Success(1, [Cell(dest, 1, src[0])])
  {
    var m := Start(src, dest, destLen);
    OthersIgnored("2b", 0, m, src, littleCpu);
    assert Skipping("2b", 0) == 1;
    assert LittleEndian(src, 0, 1) == src[0];
    assert m.cells + [Cell(dest, 1, src[0])] == [Cell(dest, 1, src[0])];
  }
}
