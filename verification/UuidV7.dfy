/** Version 7 UUIDs (section 5.7 of RFC 9562): the byte layout, its reader, and the
    order of the ids as 128-bit integers. */
module UuidV7 {
  import opened Bytes
  import opened NumberTheory
  import opened Wrappers

  datatype Error = StructError | ValueError(version: Option<nat>)

  const TIMESTAMPS: nat := 0x1_0000_0000_0000

  /** The id for a timestamp and ten random octets: 48 bits of time, version 7,
      12 random bits, variant 10, 62 random bits. */
  function Layout(ts: nat, random: bytes): (id: bytes)
    requires |random| == 10
    ensures |id| == 16
  {
    I2osp(ts % TIMESTAMPS, 6) + Tail(random)
  }

  function Tail(random: bytes): (tail: bytes)
    requires |random| == 10
    ensures |tail| == 10
  {
    [0x70 + random[0] % 0x10, random[1], 0x80 + random[2] % 0x40] + random[3..]
  }

  /** The random bits that survive the version and the variant. */
  function Unmasked(random: bytes): bytes
    requires |random| == 10
  {
    [random[0] % 0x10, random[1], random[2] % 0x40] + random[3..]
  }

  /** `_create_uuidv7_bytes`: fills a zeroed buffer piece by piece. Bitwise "and"
      with a mask of low ones is a remainder; "or" with bits it cleared is a sum. */
  method CreateBytes(timestamp: int, random: bytes) returns (r: Result<bytes, Error>)
    requires |random| == 10
    ensures 0 <= timestamp < Pow(256, 8) ==> r == Ok(Layout(timestamp, random))
    ensures !(0 <= timestamp < Pow(256, 8)) ==> r == Err(StructError)
  {
    hide I2osp, Pow;
    if !(0 <= timestamp < Pow(256, 8)) {
      return Err(StructError);
    }
    var buffer := new byte[16](_ => 0);
    var packed := I2osp(timestamp, 8);
    for i := 0 to 6
      invariant forall j :: 0 <= j < i ==> buffer[j] == packed[2 + j]
    {
      buffer[i] := packed[2 + i];
    }
    var randA := random[0] as nat * 256 + random[1];
    randA := randA % 0x1000;
    randA := randA + 0x7000;
    buffer[6], buffer[7] := randA / 256, randA % 256;
    for i := 8 to 16
      invariant forall j :: 0 <= j < 6 ==> buffer[j] == packed[2 + j]
      invariant buffer[6] == randA / 256 && buffer[7] == randA % 256
      invariant forall j :: 8 <= j < i ==> buffer[j] == random[j - 6]
    {
      buffer[i] := random[i - 6];
    }
    buffer[8] := buffer[8] % 0x40 + 0x80;
    VersionBits(random[0], random[1]);
    PackedTimestamp(timestamp);
    assert buffer[..6] == packed[2..8];
    assert buffer[6..] == Tail(random);
    assert buffer[..] == buffer[..6] + buffer[6..];
    return Ok(buffer[..]);
  }

  lemma VersionBits(high: byte, low: byte)
    ensures var word := (high as nat * 256 + low) % 0x1000 + 0x7000;
            word / 256 == 0x70 + high % 0x10 && word % 256 == low
  {
    var a, b := high / 0x10, high % 0x10;
    ModUnique(high * 256 + low, 0x1000, a, b * 256 + low);
    ModUnique(b * 256 + low + 0x7000, 256, b + 0x70, low);
  }

  /** `uuidv7_boundary`: the id whose random octets are all zero. */
  function Boundary(ts: nat): bytes {
    Layout(ts, Zeros(10))
  }

  /** `UUID.version`: defined for variant 10 only. */
  function Version(id: bytes): Option<nat>
    requires |id| == 16
  {
    if 0x80 <= id[8] < 0xC0 then Some(id[6] / 16) else None
  }

  /** `uuidv7_timestamp` */
  function Timestamp(id: bytes): Result<nat, Error>
    requires |id| == 16
  {
    if Version(id) != Some(7) then Err(ValueError(Version(id)))
    else Ok(Os2ip([0, 0] + id[..6]))
  }

  // ---------- round trip ----------

  lemma Timestamps()
    ensures Pow(256, 6) == TIMESTAMPS
  {
  }

  /** The low j octets of a number depend on its remainder only. */
  lemma {:induction false} I2ospLow(n: nat, k: nat, j: nat)
    requires j <= k
    ensures I2osp(n, k)[k - j..] == I2osp(n % Pow(256, j), j)
  {
    if j > 0 {
      LowDigit(n, Pow(256, j - 1));
      I2ospLow(n / 256, k - 1, j - 1);
    }
  }

  lemma LowDigit(n: nat, unit: nat)
    requires unit > 0
    ensures (n % (256 * unit)) % 256 == n % 256
    ensures (n % (256 * unit)) / 256 == (n / 256) % unit
  {
    var q, m := n / (256 * unit), n % (256 * unit);
    assert n == 256 * (q * unit) + m by {
      MulSwap(256, q, unit);
    }
    assert n / 256 == q * unit + m / 256;
    ModUnique(n / 256, unit, q, m / 256);
  }

  /** The last six of the eight packed octets hold the low 48 bits. */
  lemma PackedTimestamp(ts: nat)
    ensures I2osp(ts, 8)[2..8] == I2osp(ts % TIMESTAMPS, 6)
  {
    Timestamps();
    I2ospLow(ts, 8, 6);
  }

  /** Reading a built id gives back the low 48 bits of its timestamp. */
  lemma TimestampOfLayout(ts: nat, random: bytes)
    requires |random| == 10
    ensures Timestamp(Layout(ts, random)) == Ok(ts % TIMESTAMPS)
  {
    var id := Layout(ts, random);
    Timestamps();
    assert id[..6] == I2osp(ts % TIMESTAMPS, 6);
    Os2ipI2osp(ts % TIMESTAMPS, 6);
    Os2ipAppend([0, 0], id[..6]);
    assert [0, 0][..1] == [0];
    assert Os2ip([0, 0]) == 0;
    assert id[6] == Tail(random)[0] && id[8] == Tail(random)[2];
  }

  /** The reader accepts exactly the ids the builder makes. */
  lemma AcceptsExactlyLayouts(id: bytes)
    requires |id| == 16
    ensures Timestamp(id).Ok? <==> exists ts: nat, random: bytes :: |random| == 10 && id == Layout(ts, random)
  {
    if exists ts: nat, random: bytes :: |random| == 10 && id == Layout(ts, random) {
      var ts: nat, random: bytes :| |random| == 10 && id == Layout(ts, random);
      TimestampOfLayout(ts, random);
    }
    if Timestamp(id).Ok? {
      AcceptedIsLayout(id);
    }
  }

  lemma AcceptedIsLayout(id: bytes)
    requires |id| == 16 && Timestamp(id).Ok?
    ensures id == Layout(Os2ip(id[..6]), id[6..])
  {
    hide Os2ip, I2osp;
    var ts, random := Os2ip(id[..6]), id[6..];
    Timestamps();
    Os2ipBound(id[..6]);
    I2ospOs2ip(id[..6]);
    ModUnique(ts, TIMESTAMPS, 0, ts);
    assert 0x70 + id[6] % 0x10 == id[6];
    assert Tail(random) == random;
  }

  /** Two ids are the same exactly when their 48 time bits and their 74 unmasked
      random bits are. */
  lemma LayoutInjective(ts: nat, random: bytes, ts': nat, random': bytes)
    requires |random| == |random'| == 10
    ensures Layout(ts, random) == Layout(ts', random')
       <==> ts % TIMESTAMPS == ts' % TIMESTAMPS && Unmasked(random) == Unmasked(random')
  {
    var id, id' := Layout(ts, random), Layout(ts', random');
    if id == id' {
      TimestampOfLayout(ts, random);
      TimestampOfLayout(ts', random');
      assert id[6..] == Tail(random) && id'[6..] == Tail(random');
      assert Tail(random)[3..] == random[3..] && Tail(random')[3..] == random'[3..];
      assert Tail(random)[0] == Tail(random')[0];
      assert Tail(random)[1] == Tail(random')[1];
      assert Tail(random)[2] == Tail(random')[2];
    }
    if Unmasked(random) == Unmasked(random') {
      assert Unmasked(random)[3..] == random[3..] && Unmasked(random')[3..] == random'[3..];
      assert Unmasked(random)[0] == Unmasked(random')[0];
      assert Unmasked(random)[1] == Unmasked(random')[1];
      assert Unmasked(random)[2] == Unmasked(random')[2];
    }
  }

  // ---------- order ----------

  /** The id as the integer UUIDs are compared by: time above randomness. */
  lemma LayoutValue(ts: nat, random: bytes)
    requires |random| == 10
    ensures Os2ip(Layout(ts, random)) == (ts % TIMESTAMPS) * Pow(256, 10) + Os2ip(Tail(random))
    ensures Os2ip(Tail(random)) < Pow(256, 10)
  {
    Timestamps();
    Os2ipI2osp(ts % TIMESTAMPS, 6);
    Os2ipAppend(I2osp(ts % TIMESTAMPS, 6), Tail(random));
    Os2ipBound(Tail(random));
  }

  lemma {:induction false} Os2ipMonotone(s: bytes, t: bytes)
    requires |s| == |t|
    requires forall i :: 0 <= i < |s| ==> s[i] <= t[i]
    ensures Os2ip(s) <= Os2ip(t)
  {
    if s != [] {
      Os2ipMonotone(s[..|s| - 1], t[..|t| - 1]);
    }
  }

  /** Ids order by time, and a boundary is the least id of its millisecond. */
  lemma BoundaryOrder(ts: nat, random: bytes, a: nat)
    requires |random| == 10
    ensures Os2ip(Boundary(a)) <= Os2ip(Layout(ts, random)) <==> a % TIMESTAMPS <= ts % TIMESTAMPS
  {
    LayoutValue(ts, random);
    LayoutValue(a, Zeros(10));
    Os2ipMonotone(Tail(Zeros(10)), Tail(random));
    CompareByHigh(a % TIMESTAMPS, Os2ip(Tail(Zeros(10))), ts % TIMESTAMPS, Os2ip(Tail(random)), Pow(256, 10));
  }

  lemma CompareByHigh(x: nat, low: nat, x': nat, low': nat, unit: nat)
    requires low <= low' < unit
    ensures x * unit + low <= x' * unit + low' <==> x <= x'
  {
    MultipleBound(x - x', unit);
    MulSubRight(x, x', unit);
    MultipleBound(x' - x, unit);
    MulSubRight(x', x, unit);
  }

  /** A range between two boundaries holds exactly the ids of its milliseconds. */
  lemma RangeOfBoundaries(a: nat, b: nat, ts: nat, random: bytes)
    requires |random| == 10
    ensures Os2ip(Boundary(a)) <= Os2ip(Layout(ts, random)) < Os2ip(Boundary(b))
       <==> a % TIMESTAMPS <= ts % TIMESTAMPS < b % TIMESTAMPS
  {
    BoundaryOrder(ts, random, a);
    BoundaryOrder(ts, random, b);
  }

  /** Among timestamps of 48 bits an earlier one always gives the smaller id. */
  lemma EarlierIsSmaller(ts: nat, random: bytes, ts': nat, random': bytes)
    requires |random| == |random'| == 10
    requires ts < ts' < TIMESTAMPS
    ensures Os2ip(Layout(ts, random)) < Os2ip(Boundary(ts')) <= Os2ip(Layout(ts', random'))
  {
    hide Layout, Boundary, Os2ip;
    BoundaryOrder(ts, random, ts');
    BoundaryOrder(ts', random', ts');
  }

  /** The fields of a built id, by octets: 48 bits of time, version 7, variant 10 in binary,
      and the random bits that are left. */
  lemma LayoutFields(ts: nat, random: bytes)
    requires |random| == 10
    ensures var id := Layout(ts, random);
            && Os2ip(id[..6]) == ts % 0x1_0000_0000_0000
            && id[6] / 16 == 7 && id[6] % 16 == random[0] % 16 && id[7] == random[1]
            && id[8] / 64 == 2 && id[8] % 64 == random[2] % 64 && id[9..] == random[3..]
  {
    var id := Layout(ts, random);
    Timestamps();
    assert id[..6] == I2osp(ts % TIMESTAMPS, 6);
    Os2ipI2osp(ts % TIMESTAMPS, 6);
    hide I2osp, Os2ip, Pow;
    assert id[6..] == Tail(random);
    assert id[6] == Tail(random)[0] && id[7] == Tail(random)[1] && id[8] == Tail(random)[2];
    assert id[9..] == Tail(random)[3..] == random[3..];
  }

  /** A boundary is itself a well-formed id of its millisecond, and the least one: any other
      id built for the millisecond is greater, unless all its random bits are zero. */
  lemma BoundaryIsLeast(ts: nat, random: bytes)
    requires |random| == 10
    ensures Timestamp(Boundary(ts)) == Ok(ts % 0x1_0000_0000_0000)
    ensures Boundary(ts)[6] == 0x70 && Boundary(ts)[8] == 0x80
    ensures Os2ip(Boundary(ts)) <= Os2ip(Layout(ts, random))
    ensures Os2ip(Boundary(ts)) == Os2ip(Layout(ts, random))
       <==> random[0] % 16 == 0 && random[1] == 0 && random[2] % 64 == 0 && random[3..] == Zeros(7)
  {
    TimestampOfLayout(ts, Zeros(10));
    LayoutFields(ts, Zeros(10));
    BoundaryOrder(ts, random, ts);
    LayoutInjective(ts, Zeros(10), ts, random);
    assert Zeros(10)[3..] == Zeros(7);
    UnmaskedZero(random);
    hide Layout, Unmasked, Timestamp;
    if Os2ip(Boundary(ts)) == Os2ip(Layout(ts, random)) {
      I2ospOs2ip(Boundary(ts));
      I2ospOs2ip(Layout(ts, random));
    }
  }

  lemma UnmaskedZero(random: bytes)
    requires |random| == 10
    ensures Unmasked(Zeros(10)) == Unmasked(random)
       <==> random[0] % 16 == 0 && random[1] == 0 && random[2] % 64 == 0 && random[3..] == Zeros(7)
  {
    var zero, mine := Unmasked(Zeros(10)), Unmasked(random);
    assert Zeros(10)[3..] == Zeros(7);
    assert zero[3..] == Zeros(7) && mine[3..] == random[3..];
    assert mine[0] == random[0] % 16 && mine[1] == random[1] && mine[2] == random[2] % 64;
  }

  /** Any other id is rejected with its version, which only ids of variant 10 have. */
  lemma RejectsWithVersion(id: bytes)
    requires |id| == 16 && Timestamp(id).Err?
    ensures Timestamp(id).error == ValueError(if id[8] / 64 == 2 then Some(id[6] / 16) else None)
    ensures id[8] / 64 != 2 || id[6] / 16 != 7
  {
  }
}
