/**
 How a physical address is split into channel, rank, bank, row and column
 (gems-lib/ruby_clean/DRAM/AddressMapping.C), for all seven schemes.
 */
module AddressMapping {

  // ---------- Bits ----------

  const WORD: nat := 0x1_0000_0000_0000_0000
  const UNSIGNED: nat := 0x1_0000_0000

  function Pow2(k: nat): (p: nat)
    ensures p > 0
  {
    if k == 0 then 1 else 2 * Pow2(k - 1)
  }

  /** The number without its lowest `k` bits, moved down. */
  function ShiftRight(x: nat, k: nat): nat
  {
    if k == 0 then x else ShiftRight(x / 2, k - 1)
  }

  /** The number moved up by `k` bits; a 64-bit word keeps it modulo WORD. */
  function ShiftLeft(x: nat, k: nat): nat
  {
    if k == 0 then x else 2 * ShiftLeft(x, k - 1)
  }

  /** The lowest `k` bits. */
  ghost function Low(x: nat, k: nat): nat
  {
    if k == 0 then 0 else x % 2 + 2 * Low(x / 2, k - 1)
  }

  /** Exclusive or, bit by bit. */
  function Xor(a: nat, b: nat): nat
    decreases a + b
  {
    if a == 0 && b == 0 then 0 else (a % 2 + b % 2) % 2 + 2 * Xor(a / 2, b / 2)
  }

  /** The right shift is division by a power of two, and the low bits are the remainder. */
  lemma {:induction false} ShiftRightDivides(x: nat, k: nat)
    ensures x == Pow2(k) * ShiftRight(x, k) + Low(x, k) && Low(x, k) < Pow2(k)
  {
    if k > 0 {
      ShiftRightDivides(x / 2, k - 1);
      DoubleProduct(Pow2(k - 1), ShiftRight(x / 2, k - 1));
    }
  }

  lemma {:induction false} ShiftLeftMultiplies(x: nat, k: nat)
    ensures ShiftLeft(x, k) == Pow2(k) * x
  {
    if k > 0 {
      ShiftLeftMultiplies(x, k - 1);
      DoubleProduct(Pow2(k - 1), x);
    }
  }

  lemma DoubleProduct(p: nat, x: nat)
    ensures 2 * (p * x) == 2 * p * x
  {
  }

  lemma {:induction false} LowAndHigh(x: nat, k: nat)
    ensures x == Low(x, k) + ShiftLeft(ShiftRight(x, k), k)
  {
    if k > 0 {
      LowAndHigh(x / 2, k - 1);
    }
  }

  lemma {:induction false} LowFits(x: nat, k: nat)
    ensures Low(x, k) < Pow2(k)
    ensures Low(x, k) == x <==> x < Pow2(k)
  {
    if k > 0 {
      LowFits(x / 2, k - 1);
    }
  }

  lemma {:induction false} LowOfSum(x: nat, a: nat, b: nat)
    ensures Low(x, a + b) == Low(x, a) + ShiftLeft(Low(ShiftRight(x, a), b), a)
  {
    if a > 0 {
      LowOfSum(x / 2, a - 1, b);
    }
  }

  /** A number put together from `low` and `high` comes apart into them. */
  lemma {:induction false} ComesApart(low: nat, high: nat, k: nat)
    requires low < Pow2(k)
    ensures ShiftRight(low + ShiftLeft(high, k), k) == high
    ensures Low(low + ShiftLeft(high, k), k) == low
  {
    if k > 0 {
      ComesApart(low / 2, high, k - 1);
      assert (low + ShiftLeft(high, k)) / 2 == low / 2 + ShiftLeft(high, k - 1);
    }
  }

  lemma {:induction false} XorSelf(x: nat)
    ensures Xor(x, x) == 0
  {
    if x > 0 {
      XorSelf(x / 2);
    }
  }

  /** The exclusive or of a number with its high bits leaves its low bits. */
  lemma {:induction false} XorLeavesLow(x: nat, w: nat)
    ensures Xor(x, ShiftLeft(ShiftRight(x, w), w)) == Low(x, w)
    decreases w
  {
    if w == 0 {
      XorSelf(x);
    } else {
      XorLeavesLow(x / 2, w - 1);
      var z := ShiftLeft(ShiftRight(x / 2, w - 1), w - 1);
      assert ShiftLeft(ShiftRight(x, w), w) == 2 * z;
      LowAndHigh(x / 2, w - 1);
    }
  }

  lemma {:induction false} PowGrows(a: nat, b: nat)
    requires a <= b
    ensures Pow2(a) <= Pow2(b)
  {
    if a < b {
      PowGrows(a, b - 1);
    }
  }

  lemma {:induction false} ShiftLeftBelow(x: nat, a: nat, b: nat)
    requires x < Pow2(b)
    ensures ShiftLeft(x, a) < Pow2(a + b)
  {
    if a > 0 {
      ShiftLeftBelow(x, a - 1, b);
    }
  }

  // ---------- Splitting a number into fields ----------

  ghost function Total(widths: seq<nat>): nat
  {
    if widths == [] then 0 else widths[0] + Total(widths[1..])
  }

  ghost function Split(x: nat, widths: seq<nat>): (fields: seq<nat>)
    ensures |fields| == |widths|
    decreases |widths|
  {
    if widths == [] then [] else [Low(x, widths[0])] + Split(ShiftRight(x, widths[0]), widths[1..])
  }

  ghost function Join(fields: seq<nat>, widths: seq<nat>): nat
    requires |fields| == |widths|
  {
    if widths == [] then 0 else fields[0] + ShiftLeft(Join(fields[1..], widths[1..]), widths[0])
  }

  ghost predicate Fit(fields: seq<nat>, widths: seq<nat>)
  {
    |fields| == |widths| && forall k :: 0 <= k < |fields| ==> fields[k] < Pow2(widths[k])
  }

  /** Joining what was split gives the number back, as far as the widths reach. */
  lemma {:induction false} JoinOfSplit(x: nat, widths: seq<nat>)
    ensures Fit(Split(x, widths), widths)
    ensures Join(Split(x, widths), widths) == Low(x, Total(widths))
    decreases |widths|
  {
    if widths != [] {
      var w, rest := widths[0], widths[1..];
      var high := ShiftRight(x, w);
      JoinOfSplit(high, rest);
      LowFits(x, w);
      LowOfSum(x, w, Total(rest));
      assert Split(x, widths)[1..] == Split(high, rest);
    }
  }

  lemma {:induction false} SplitOfJoin(fields: seq<nat>, widths: seq<nat>)
    requires Fit(fields, widths)
    ensures Split(Join(fields, widths), widths) == fields
    ensures Join(fields, widths) < Pow2(Total(widths))
  {
    if widths != [] {
      var w, rest := widths[0], widths[1..];
      var high := Join(fields[1..], rest);
      SplitOfJoin(fields[1..], rest);
      ComesApart(fields[0], high, w);
      LowOfSum(Join(fields, widths), w, Total(rest));
      LowFits(high, Total(rest));
      LowFits(Join(fields, widths), Total(widths));
      assert fields == [fields[0]] + fields[1..];
    }
  }

  // ---------- Schemes ----------

  datatype Scheme = Scheme1 | Scheme2 | Scheme3 | Scheme4 | Scheme5 | Scheme6 | Scheme7 | Other(number: int)

  datatype Field = Channel | Rank | Bank | Row | Column

  datatype Fields = Fields(chan: nat, rank: nat, bank: nat, row: nat, column: nat)

  datatype Result<T> = Ok(value: T) | Err

  /** The bit widths of the configuration; the low column bits stay zero over a burst. */
  datatype Config = Config(channelBits: nat, rankBits: nat, bankBits: nat, rowBits: nat, colBits: nat,
                           byteOffset: nat, colLow: nat)

  ghost predicate ValidConfig(cfg: Config)
  {
    && cfg.channelBits <= 32 && cfg.rankBits <= 32 && cfg.bankBits <= 32 && cfg.rowBits <= 32 && cfg.colBits <= 32
    && cfg.byteOffset <= 32 && cfg.colLow <= cfg.colBits
  }

  /** The fields of a scheme from the lowest bits up. */
  ghost function Order(scheme: Scheme): seq<Field>
    requires !scheme.Other?
  {
    match scheme
    case Scheme1 => [Bank, Column, Row, Rank, Channel]
    case Scheme2 => [Rank, Bank, Column, Row, Channel]
    case Scheme3 => [Row, Column, Bank, Rank, Channel]
    case Scheme4 => [Column, Row, Bank, Rank, Channel]
    case Scheme5 => [Bank, Rank, Column, Row, Channel]
    case Scheme6 => [Column, Rank, Bank, Row, Channel]
    case Scheme7 => [Channel, Bank, Rank, Column, Row]
  }

  ghost function Width(cfg: Config, f: Field): nat
    requires ValidConfig(cfg)
  {
    match f
    case Channel => cfg.channelBits
    case Rank => cfg.rankBits
    case Bank => cfg.bankBits
    case Row => cfg.rowBits
    case Column => cfg.colBits - cfg.colLow
  }

  ghost function Value(fields: Fields, f: Field): nat
  {
    match f
    case Channel => fields.chan
    case Rank => fields.rank
    case Bank => fields.bank
    case Row => fields.row
    case Column => fields.column
  }

  ghost function Widths(scheme: Scheme, cfg: Config): (widths: seq<nat>)
    requires ValidConfig(cfg) && !scheme.Other?
    ensures |widths| == 5
  {
    seq(5, k requires 0 <= k < 5 => Width(cfg, Order(scheme)[k]))
  }

  ghost function Values(scheme: Scheme, fields: Fields): (values: seq<nat>)
    requires !scheme.Other?
    ensures |values| == 5
  {
    seq(5, k requires 0 <= k < 5 => Value(fields, Order(scheme)[k]))
  }

  /** The bits below all fields. */
  ghost function LowBits(cfg: Config): nat
  {
    cfg.byteOffset + cfg.colLow
  }

  ghost function Capacity(scheme: Scheme, cfg: Config): nat
    requires ValidConfig(cfg) && !scheme.Other?
  {
    Pow2(LowBits(cfg) + Total(Widths(scheme, cfg)))
  }

  /** The bits below all fields are zero. */
  ghost predicate Aligned(cfg: Config, address: nat)
  {
    Low(address, LowBits(cfg)) == 0
  }

  /** The fields are what the address splits into above its low bits. */
  ghost predicate MapsTo(scheme: Scheme, cfg: Config, address: nat, fields: Fields)
    requires ValidConfig(cfg) && !scheme.Other?
  {
    Values(scheme, fields) == Split(ShiftRight(address, LowBits(cfg)), Widths(scheme, cfg))
  }

  /** The address with these fields and zero low bits. */
  ghost function Compose(scheme: Scheme, cfg: Config, fields: Fields): nat
    requires ValidConfig(cfg) && !scheme.Other?
  {
    ShiftLeft(Join(Values(scheme, fields), Widths(scheme, cfg)), LowBits(cfg))
  }

  ghost predicate InRange(cfg: Config, fields: Fields)
    requires ValidConfig(cfg)
  {
    && fields.chan < Pow2(cfg.channelBits) && fields.rank < Pow2(cfg.rankBits) && fields.bank < Pow2(cfg.bankBits)
    && fields.row < Pow2(cfg.rowBits) && fields.column < Pow2(cfg.colBits - cfg.colLow)
  }

  lemma InRangeFits(scheme: Scheme, cfg: Config, fields: Fields)
    requires ValidConfig(cfg) && !scheme.Other?
    ensures InRange(cfg, fields) <==> Fit(Values(scheme, fields), Widths(scheme, cfg))
  {
    var v, w := Values(scheme, fields), Widths(scheme, cfg);
    assert forall k :: 0 <= k < 5 ==> v[k] == Value(fields, Order(scheme)[k]) && w[k] == Width(cfg, Order(scheme)[k]);
    if Fit(v, w) {
      assert v[0] < Pow2(w[0]) && v[1] < Pow2(w[1]) && v[2] < Pow2(w[2]) && v[3] < Pow2(w[3]) && v[4] < Pow2(w[4]);
    }
  }

  /**
   The fields of an address are in range, and they recompose to the address exactly
   when it is aligned to a transaction and within the capacity.
   */
  lemma RecomposesIff(scheme: Scheme, cfg: Config, address: nat, fields: Fields)
    requires ValidConfig(cfg) && !scheme.Other? && MapsTo(scheme, cfg, address, fields)
    ensures InRange(cfg, fields)
    ensures Compose(scheme, cfg, fields) == address <==>
            Aligned(cfg, address) && address < Capacity(scheme, cfg)
  {
    var p, widths := LowBits(cfg), Widths(scheme, cfg);
    JoinOfSplit(ShiftRight(address, p), widths);
    InRangeFits(scheme, cfg, fields);
    LowOfSum(address, p, Total(widths));
    LowFits(address, p + Total(widths));
    LowAndHigh(address, p + Total(widths));
  }

  /** Every combination of fields in range is the image of the address composed from it. */
  lemma ComposeMapsBack(scheme: Scheme, cfg: Config, fields: Fields)
    requires ValidConfig(cfg) && !scheme.Other? && InRange(cfg, fields)
    ensures MapsTo(scheme, cfg, Compose(scheme, cfg, fields), fields)
    ensures Compose(scheme, cfg, fields) < Capacity(scheme, cfg)
  {
    var p, widths := LowBits(cfg), Widths(scheme, cfg);
    var joined := Join(Values(scheme, fields), widths);
    InRangeFits(scheme, cfg, fields);
    SplitOfJoin(Values(scheme, fields), widths);
    ComesApart(0, joined, p);
    ShiftLeftBelow(joined, p, Total(widths));
  }

  /** No two aligned addresses within the capacity have the same fields. */
  lemma MappingIsInjective(scheme: Scheme, cfg: Config, a: nat, b: nat, fields: Fields)
    requires ValidConfig(cfg) && !scheme.Other?
    requires MapsTo(scheme, cfg, a, fields) && MapsTo(scheme, cfg, b, fields)
    requires Aligned(cfg, a) && a < Capacity(scheme, cfg) && Aligned(cfg, b) && b < Capacity(scheme, cfg)
    ensures a == b
  {
    RecomposesIff(scheme, cfg, a, fields);
    RecomposesIff(scheme, cfg, b, fields);
  }

  // ---------- Where each field lies ----------

  /** `value` is the number in the `width` bits of the address above the lowest `low` bits. */
  ghost predicate Lies(address: nat, low: nat, width: nat, value: nat)
  {
    value == address / Pow2(low) % Pow2(width)
  }

  lemma {:induction false} ProductGrows(p: nat, a: nat, b: nat)
    requires a < b
    ensures p * a + p <= p * b
  {
    if a + 1 < b {
      ProductGrows(p, a, b - 1);
    }
  }

  lemma DivisionIs(x: nat, p: nat, q: nat, r: nat)
    requires p > 0 && x == p * q + r && r < p
    ensures x / p == q && x % p == r
  {
    var a := x / p;
    assert x == p * a + x % p;
    if a < q {
      ProductGrows(p, a, q);
    } else if q < a {
      ProductGrows(p, q, a);
    }
  }

  lemma LowOfShiftLies(address: nat, low: nat, width: nat)
    ensures Lies(address, low, width, Low(ShiftRight(address, low), width))
  {
    var y := ShiftRight(address, low);
    ShiftRightDivides(address, low);
    DivisionIs(address, Pow2(low), y, Low(address, low));
    ShiftRightDivides(y, width);
    DivisionIs(y, Pow2(width), ShiftRight(y, width), Low(y, width));
  }

  /** The bits below field `k`. */
  ghost function Below(widths: seq<nat>, k: nat): nat
    requires k <= |widths|
  {
    if k == 0 then 0 else Below(widths, k - 1) + widths[k - 1]
  }

  lemma BelowTail(widths: seq<nat>, k: nat)
    requires 0 < k <= |widths|
    ensures Below(widths, k) == widths[0] + Below(widths[1..], k - 1)
  {
    if k > 1 {
      BelowTail(widths, k - 1);
    }
  }

  lemma {:induction false} SplitLies(address: nat, low: nat, widths: seq<nat>, k: nat)
    requires k < |widths|
    ensures Lies(address, low + Below(widths, k), widths[k], Split(ShiftRight(address, low), widths)[k])
    decreases k
  {
    if k == 0 {
      LowOfShiftLies(address, low, widths[0]);
    } else {
      ShiftTwice(address, low, widths[0]);
      SplitLies(address, low + widths[0], widths[1..], k - 1);
      BelowTail(widths, k);
    }
  }

  lemma FieldLies(scheme: Scheme, cfg: Config, address: nat, fields: Fields, k: nat)
    requires ValidConfig(cfg) && !scheme.Other? && MapsTo(scheme, cfg, address, fields) && k < 5
    ensures Lies(address, LowBits(cfg) + Below(Widths(scheme, cfg), k), Width(cfg, Order(scheme)[k]),
                 Value(fields, Order(scheme)[k]))
  {
    SplitLies(address, LowBits(cfg), Widths(scheme, cfg), k);
    assert Values(scheme, fields)[k] == Value(fields, Order(scheme)[k]);
  }

  /** Five fields of these widths follow each other in the address, from bit `b` up, with these values. */
  ghost predicate FiveLie(address: nat, b: nat, w0: nat, v0: nat, w1: nat, v1: nat, w2: nat, v2: nat,
                          w3: nat, v3: nat, w4: nat, v4: nat)
  {
    && Lies(address, b, w0, v0)
    && Lies(address, b + w0, w1, v1)
    && Lies(address, b + w0 + w1, w2, v2)
    && Lies(address, b + w0 + w1 + w2, w3, v3)
    && Lies(address, b + w0 + w1 + w2 + w3, w4, v4)
  }

  lemma AllFieldsLie(scheme: Scheme, cfg: Config, address: nat, f: Fields)
    requires ValidConfig(cfg) && !scheme.Other? && MapsTo(scheme, cfg, address, f)
    ensures var b, o := LowBits(cfg), Order(scheme);
            FiveLie(address, b, Width(cfg, o[0]), Value(f, o[0]), Width(cfg, o[1]), Value(f, o[1]),
                    Width(cfg, o[2]), Value(f, o[2]), Width(cfg, o[3]), Value(f, o[3]), Width(cfg, o[4]), Value(f, o[4]))
  {
    var w := Widths(scheme, cfg);
    FieldLies(scheme, cfg, address, f, 0);
    FieldLies(scheme, cfg, address, f, 1);
    FieldLies(scheme, cfg, address, f, 2);
    FieldLies(scheme, cfg, address, f, 3);
    FieldLies(scheme, cfg, address, f, 4);
    assert Below(w, 1) == w[0];
    assert Below(w, 2) == w[0] + w[1];
    assert Below(w, 3) == w[0] + w[1] + w[2];
    assert Below(w, 4) == w[0] + w[1] + w[2] + w[3];
  }

  /** Where the fields of an address lie in each scheme, above the byte offset and the low column bits. */
  ghost predicate Placed(scheme: Scheme, cfg: Config, address: nat, f: Fields)
    requires ValidConfig(cfg)
  {
    var b, columns := cfg.byteOffset + cfg.colLow, cfg.colBits - cfg.colLow;
    var channels, ranks, banks, rows := cfg.channelBits, cfg.rankBits, cfg.bankBits, cfg.rowBits;
    match scheme
    case Scheme1 =>
      FiveLie(address, b, banks, f.bank, columns, f.column, rows, f.row, ranks, f.rank, channels, f.chan)
    case Scheme2 =>
      FiveLie(address, b, ranks, f.rank, banks, f.bank, columns, f.column, rows, f.row, channels, f.chan)
    case Scheme3 =>
      FiveLie(address, b, rows, f.row, columns, f.column, banks, f.bank, ranks, f.rank, channels, f.chan)
    case Scheme4 =>
      FiveLie(address, b, columns, f.column, rows, f.row, banks, f.bank, ranks, f.rank, channels, f.chan)
    case Scheme5 =>
      FiveLie(address, b, banks, f.bank, ranks, f.rank, columns, f.column, rows, f.row, channels, f.chan)
    case Scheme6 =>
      FiveLie(address, b, columns, f.column, ranks, f.rank, banks, f.bank, rows, f.row, channels, f.chan)
    case Scheme7 =>
      FiveLie(address, b, channels, f.chan, banks, f.bank, ranks, f.rank, columns, f.column, rows, f.row)
    case Other(_) => false
  }

  /** For each scheme, the fields of an address are the numbers in these bits of it. */
  lemma FieldsPlaced(scheme: Scheme, cfg: Config, address: nat, fields: Fields)
    requires ValidConfig(cfg) && !scheme.Other? && MapsTo(scheme, cfg, address, fields)
    ensures Placed(scheme, cfg, address, fields)
  {
    AllFieldsLie(scheme, cfg, address, fields);
  }

  // ---------- The mapping ----------

  /** The address after the first `k` fields of the scheme have been taken off. */
  ghost function After(scheme: Scheme, cfg: Config, address: nat, k: nat): nat
    requires ValidConfig(cfg) && !scheme.Other? && k <= 5
  {
    if k == 0 then ShiftRight(address, LowBits(cfg))
    else ShiftRight(After(scheme, cfg, address, k - 1), Width(cfg, Order(scheme)[k - 1]))
  }

  /** `value` is what the address holds in the `k`th field of the scheme. */
  ghost predicate Taken(scheme: Scheme, cfg: Config, address: nat, k: nat, value: nat)
    requires ValidConfig(cfg) && !scheme.Other? && k < 5
  {
    value == Low(After(scheme, cfg, address, k), Width(cfg, Order(scheme)[k]))
  }

  /** Takes field `k` off the rest of the address: the bits as a 32-bit number, and what is left. */
  method TakeField(rest: nat, width: nat, ghost scheme: Scheme, ghost cfg: Config, ghost address: nat, ghost k: nat)
    returns (field: nat, left: nat)
    requires rest < WORD && ValidConfig(cfg) && !scheme.Other? && k < 5
    requires rest == After(scheme, cfg, address, k) && width == Width(cfg, Order(scheme)[k])
    ensures Taken(scheme, cfg, address, k, field) && left == After(scheme, cfg, address, k + 1) && left < WORD
  {
    var tempA := rest;
    left := ShiftRight(rest, width);
    var tempB := ShiftLeft(left, width) % WORD;
    TakenField(rest, width);
    field := Xor(tempA, tempB) % UNSIGNED;
  }

  lemma {:induction false} ShiftRightBelow(x: nat, w: nat)
    ensures ShiftRight(x, w) <= x
  {
    if w > 0 {
      ShiftRightBelow(x / 2, w - 1);
    }
  }

  lemma Pow2Of32()
    ensures Pow2(32) == UNSIGNED
  {
    assert Pow2(4) == 16;
    assert Pow2(8) == 0x100;
    assert Pow2(12) == 0x1000;
    assert Pow2(16) == 0x1_0000;
    assert Pow2(20) == 0x10_0000;
    assert Pow2(24) == 0x100_0000;
    assert Pow2(28) == 0x1000_0000;
  }

  lemma WordKeeps(x: nat, width: nat)
    requires x < WORD
    ensures ShiftRight(x, width) < WORD
    ensures ShiftLeft(ShiftRight(x, width), width) % WORD == ShiftLeft(ShiftRight(x, width), width)
  {
    ShiftRightBelow(x, width);
    LowAndHigh(x, width);
  }

  lemma LowIsUnsigned(x: nat, width: nat)
    requires width <= 32
    ensures Low(x, width) % UNSIGNED == Low(x, width)
  {
    LowFits(x, width);
    PowGrows(width, 32);
    Pow2Of32();
  }

  /** What the 64-bit shifts, the exclusive or and the truncation to 32 bits leave are the low bits. */
  lemma TakenField(x: nat, width: nat)
    requires x < WORD && width <= 32
    ensures ShiftRight(x, width) < WORD
    ensures Xor(x, ShiftLeft(ShiftRight(x, width), width) % WORD) % UNSIGNED == Low(x, width)
  {
    WordKeeps(x, width);
    XorLeavesLow(x, width);
    LowIsUnsigned(x, width);
  }

  lemma {:induction false} FieldsFrom(scheme: Scheme, cfg: Config, address: nat, fields: Fields, k: nat)
    requires ValidConfig(cfg) && !scheme.Other? && k <= 5
    requires forall i :: 0 <= i < 5 ==> Taken(scheme, cfg, address, i, Value(fields, Order(scheme)[i]))
    ensures Values(scheme, fields)[k..] == Split(After(scheme, cfg, address, k), Widths(scheme, cfg)[k..])
    decreases 5 - k
  {
    if k < 5 {
      var widths := Widths(scheme, cfg)[k..];
      FieldsFrom(scheme, cfg, address, fields, k + 1);
      assert Taken(scheme, cfg, address, k, Value(fields, Order(scheme)[k]));
      assert widths[0] == Width(cfg, Order(scheme)[k]) && widths[1..] == Widths(scheme, cfg)[k + 1..];
      assert Values(scheme, fields)[k..] == [Values(scheme, fields)[k]] + Values(scheme, fields)[k + 1..];
    }
  }

  lemma AllTaken(scheme: Scheme, cfg: Config, address: nat, fields: Fields)
    requires ValidConfig(cfg) && !scheme.Other?
    requires forall i :: 0 <= i < 5 ==> Taken(scheme, cfg, address, i, Value(fields, Order(scheme)[i]))
    ensures MapsTo(scheme, cfg, address, fields)
  {
    FieldsFrom(scheme, cfg, address, fields, 0);
    assert Values(scheme, fields)[0..] == Values(scheme, fields) && Widths(scheme, cfg)[0..] == Widths(scheme, cfg);
  }

  lemma {:induction false} ShiftTwice(x: nat, a: nat, b: nat)
    ensures ShiftRight(ShiftRight(x, a), b) == ShiftRight(x, a + b)
  {
    if a > 0 {
      ShiftTwice(x / 2, a - 1, b);
    }
  }

  /** Splits a physical address by the scheme; an unknown scheme is an error. */
  method AddressMapping(scheme: Scheme, cfg: Config, physicalAddress: nat) returns (r: Result<Fields>)
    requires ValidConfig(cfg) && physicalAddress < WORD
    ensures r.Err? <==> scheme.Other?
    ensures r.Ok? ==> MapsTo(scheme, cfg, physicalAddress, r.value) && Placed(scheme, cfg, physicalAddress, r.value)
  {
    var x := ShiftRight(physicalAddress, cfg.byteOffset);
    x := ShiftRight(x, cfg.colLow);
    var colHigh := cfg.colBits - cfg.colLow;
    ShiftTwice(physicalAddress, cfg.byteOffset, cfg.colLow);
    ShiftRightBelow(physicalAddress, LowBits(cfg));
    var chan, rank, bank, row, column: nat;
    match scheme {
    case Scheme1 =>
      bank, x := TakeField(x, cfg.bankBits, scheme, cfg, physicalAddress, 0);
      column, x := TakeField(x, colHigh, scheme, cfg, physicalAddress, 1);
      row, x := TakeField(x, cfg.rowBits, scheme, cfg, physicalAddress, 2);
      rank, x := TakeField(x, cfg.rankBits, scheme, cfg, physicalAddress, 3);
      chan, x := TakeField(x, cfg.channelBits, scheme, cfg, physicalAddress, 4);
    case Scheme2 =>
      rank, x := TakeField(x, cfg.rankBits, scheme, cfg, physicalAddress, 0);
      bank, x := TakeField(x, cfg.bankBits, scheme, cfg, physicalAddress, 1);
      column, x := TakeField(x, colHigh, scheme, cfg, physicalAddress, 2);
      row, x := TakeField(x, cfg.rowBits, scheme, cfg, physicalAddress, 3);
      chan, x := TakeField(x, cfg.channelBits, scheme, cfg, physicalAddress, 4);
    case Scheme3 =>
      row, x := TakeField(x, cfg.rowBits, scheme, cfg, physicalAddress, 0);
      column, x := TakeField(x, colHigh, scheme, cfg, physicalAddress, 1);
      bank, x := TakeField(x, cfg.bankBits, scheme, cfg, physicalAddress, 2);
      rank, x := TakeField(x, cfg.rankBits, scheme, cfg, physicalAddress, 3);
      chan, x := TakeField(x, cfg.channelBits, scheme, cfg, physicalAddress, 4);
    case Scheme4 =>
      column, x := TakeField(x, colHigh, scheme, cfg, physicalAddress, 0);
      row, x := TakeField(x, cfg.rowBits, scheme, cfg, physicalAddress, 1);
      bank, x := TakeField(x, cfg.bankBits, scheme, cfg, physicalAddress, 2);
      rank, x := TakeField(x, cfg.rankBits, scheme, cfg, physicalAddress, 3);
      chan, x := TakeField(x, cfg.channelBits, scheme, cfg, physicalAddress, 4);
    case Scheme5 =>
      bank, x := TakeField(x, cfg.bankBits, scheme, cfg, physicalAddress, 0);
      rank, x := TakeField(x, cfg.rankBits, scheme, cfg, physicalAddress, 1);
      column, x := TakeField(x, colHigh, scheme, cfg, physicalAddress, 2);
      row, x := TakeField(x, cfg.rowBits, scheme, cfg, physicalAddress, 3);
      chan, x := TakeField(x, cfg.channelBits, scheme, cfg, physicalAddress, 4);
    case Scheme6 =>
      column, x := TakeField(x, colHigh, scheme, cfg, physicalAddress, 0);
      rank, x := TakeField(x, cfg.rankBits, scheme, cfg, physicalAddress, 1);
      bank, x := TakeField(x, cfg.bankBits, scheme, cfg, physicalAddress, 2);
      row, x := TakeField(x, cfg.rowBits, scheme, cfg, physicalAddress, 3);
      chan, x := TakeField(x, cfg.channelBits, scheme, cfg, physicalAddress, 4);
    case Scheme7 =>
      chan, x := TakeField(x, cfg.channelBits, scheme, cfg, physicalAddress, 0);
      bank, x := TakeField(x, cfg.bankBits, scheme, cfg, physicalAddress, 1);
      rank, x := TakeField(x, cfg.rankBits, scheme, cfg, physicalAddress, 2);
      column, x := TakeField(x, colHigh, scheme, cfg, physicalAddress, 3);
      row, x := TakeField(x, cfg.rowBits, scheme, cfg, physicalAddress, 4);
    case Other(_) => return Err;
    }
    r := Ok(Fields(chan, rank, bank, row, column));
    AllTaken(scheme, cfg, physicalAddress, r.value);
    FieldsPlaced(scheme, cfg, physicalAddress, r.value);
  }
}
