/** The connection counter connman pushes usage statistics to:
    ConnmanCounter keeps the home and roaming snapshots and renders each
    into the label shown to the user. */
module Counter {
  import opened Qt

  /** A counter map as ConnmanCounter keeps it: metric name (TX.Bytes,
      RX.Packets, Time, ...) to its value. */
  type Snapshot = map<string, int>

  /** The home or roaming argument of one Usage call, in QMap order. */
  type Update = seq<(string, int)>

  /** QVariantMap::value(key) read as a number: 0 for a missing key. */
  function Read(m: Snapshot, key: string): int
  {
    if key in m then m[key] else 0
  }

  /** What the QMapIterator loop of Usage makes of the kept snapshot:
      every key of the update is written, the rest stays. */
  function Merge(data: Snapshot, update: Update): Snapshot
  {
    data + ToMap(update)
  }

  /** The merge adds the update's keys, overwrites their values and keeps
      the value of every key the update does not mention. */
  lemma MergeKeysAndValues(data: Snapshot, update: Update)
    ensures Merge(data, update).Keys == data.Keys + KeysOf(update)
    ensures forall k :: k in data && k !in KeysOf(update) ==> Merge(data, update)[k] == data[k]
  {
    ToMapKeys(update);
  }

  /** Each entry of a QMap update is the value its key ends up with. */
  lemma MergeOverwrites(data: Snapshot, update: Update, i: int)
    requires Ascending(update) && 0 <= i < |update|
    ensures update[i].0 in Merge(data, update)
    ensures Merge(data, update)[update[i].0] == update[i].1
  {
    ToMapAscending(update, i);
  }

  /** Two partial updates of different keys leave both keys in place. */
  lemma SuccessiveUpdatesAccumulate(data: Snapshot, a: string, x: int, b: string, y: int)
    requires a != b
    ensures Merge(Merge(data, [(a, x)]), [(b, y)]) == data[a := x][b := y]
  {
    assert ToMap([(a, x)]) == map[a := x] by {
      assert [(a, x)][..0] == [];
    }
    assert ToMap([(b, y)]) == map[b := y] by {
      assert [(b, y)][..0] == [];
    }
  }

  // Byte-unit cut-offs: 1.875 of a unit (1024 * 1.875 and so on, the
  // double product truncated to int).
  const BytesCutoff: int := 1024 * 15 / 8
  const KiloCutoff: int := 1024 * 1024 * 15 / 8
  const MegaCutoff: int := 1024 * 1024 * 1024 * 15 / 8

  datatype ByteUnit = Bytes | KB | MB | GB

  /** The number of bytes one unit stands for. */
  function UnitSize(u: ByteUnit): int
  {
    match u
    case Bytes => 1
    case KB => 1024
    case MB => 1024 * 1024
    case GB => 1024 * 1024 * 1024
  }

  function UnitRank(u: ByteUnit): int
  {
    match u
    case Bytes => 0
    case KB => 1
    case MB => 2
    case GB => 3
  }

  /** The unit getLabel renders a byte count in, for TX and RX alike. */
  function UnitFor(bytes: int): ByteUnit
  {
    if bytes < BytesCutoff then Bytes
    else if bytes < KiloCutoff then KB
    else if bytes < MegaCutoff then MB
    else GB
  }

  /** The cut-offs are 1920, 1966080 and 2013265920 bytes. */
  lemma UnitThresholds(bytes: int)
    ensures UnitFor(bytes) == Bytes <==> bytes < 1920
    ensures UnitFor(bytes) == KB <==> 1920 <= bytes < 1966080
    ensures UnitFor(bytes) == MB <==> 1966080 <= bytes < 2013265920
    ensures UnitFor(bytes) == GB <==> 2013265920 <= bytes
  {
  }

  /** The rendered number is at least 1.875 of its unit (except in Bytes)
      and below 1920 of it (except in GB). */
  lemma UnitScale(bytes: int)
    ensures UnitFor(bytes) != Bytes ==> 15 * UnitSize(UnitFor(bytes)) <= 8 * bytes
    ensures UnitFor(bytes) != GB ==> bytes < 1920 * UnitSize(UnitFor(bytes))
  {
  }

  /** More bytes never render in a smaller unit. */
  lemma UnitMonotone(a: int, b: int)
    requires a <= b
    ensures UnitRank(UnitFor(a)) <= UnitRank(UnitFor(b))
  {
  }

  /** A byte count with the unit it is shown in; the one-decimal value
      itself is floating point and not modelled. */
  datatype ByteSize = ByteSize(bytes: int, unit: ByteUnit)

  /** "Total: n Packet(s) (size), Errors: n Packet(s), Dropped: n Packet(s)". */
  datatype PacketBlock = PacketBlock(packets: int, size: ByteSize, errors: int, dropped: int)

  datatype TimePart = Days(days: int) | Hours(hours: int) | Minutes(minutes: int) | Seconds(seconds: int)

  /** The pieces getLabel appends, in order. */
  datatype Segment =
    | Transmit(block: PacketBlock)
    | Received(block: PacketBlock)
    | ConnectTimeTitle
    | Time(part: TimePart)

  /** The elapsed time split as getLabel does with C++ `/` and `%`. */
  datatype Duration = Duration(days: int, hours: int, minutes: int, seconds: int)

  function Breakdown(t: int): Duration
  {
    var rest := CMod(t, 24 * 60 * 60);
    var rest' := CMod(rest, 60 * 60);
    Duration(CDiv(t, 24 * 60 * 60), CDiv(rest, 60 * 60), CDiv(rest', 60), CMod(rest', 60))
  }

  function DurationSeconds(d: Duration): int
  {
    d.days * 86400 + d.hours * 3600 + d.minutes * 60 + d.seconds
  }

  /** The parts give back the time, and for a time that is not negative
      they are an ordinary days/hours/minutes/seconds reading. */
  lemma BreakdownReconstructs(t: int)
    ensures DurationSeconds(Breakdown(t)) == t
    ensures t >= 0 ==> var b := Breakdown(t);
      b.days >= 0 && 0 <= b.hours < 24 && 0 <= b.minutes < 60 && 0 <= b.seconds < 60
  {
    var rest := CMod(t, 86400);
    var rest' := CMod(rest, 3600);
    DivModTruncated(t, 86400);
    DivModTruncated(rest, 3600);
    DivModTruncated(rest', 60);
    if t >= 0 {
      assert CDiv(rest, 3600) < 24 by {
        assert CDiv(rest, 3600) * 3600 <= rest < 86400;
      }
    }
  }

  /** The time parts getLabel appends after the Connect Time title: a unit
      is shown when it is positive (days) or non-zero, or when a larger
      unit is non-zero. */
  function TimeParts(t: int): seq<TimePart>
  {
    var b := Breakdown(t);
    (if b.days > 0 then [Days(b.days)] else [])
    + (if b.hours > 0 || b.days != 0 then [Hours(b.hours)] else [])
    + (if b.minutes > 0 || b.days != 0 || b.hours != 0 then [Minutes(b.minutes)] else [])
    + (if b.seconds > 0 || b.days != 0 || b.hours != 0 || b.minutes != 0 then [Seconds(b.seconds)] else [])
  }

  /** All four parts of a duration, largest first. */
  function AllParts(d: Duration): seq<TimePart>
  {
    [Days(d.days), Hours(d.hours), Minutes(d.minutes), Seconds(d.seconds)]
  }

  /** How many of the largest units are zero before the first non-zero one. */
  function LeadingZeros(d: Duration): nat
  {
    if d.days != 0 then 0
    else if d.hours != 0 then 1
    else if d.minutes != 0 then 2
    else if d.seconds != 0 then 3
    else 4
  }

  function PartSeconds(p: TimePart): int
  {
    match p
    case Days(n) => n * 86400
    case Hours(n) => n * 3600
    case Minutes(n) => n * 60
    case Seconds(n) => n
  }

  function TotalSeconds(parts: seq<TimePart>): int
  {
    if parts == [] then 0 else PartSeconds(parts[0]) + TotalSeconds(parts[1..])
  }

  /** For a time that is not negative the shown parts are the breakdown
      without its leading zero units: once a unit is shown every smaller
      one is, and a zero time shows nothing. */
  lemma TimePartsDropLeadingZeros(t: int)
    requires t >= 0
    ensures TimeParts(t) == AllParts(Breakdown(t))[LeadingZeros(Breakdown(t))..]
  {
    BreakdownReconstructs(t);
  }

  /** The shown parts add up to the time: nothing is lost by hiding the
      leading zero units. */
  lemma TimePartsTotal(t: int)
    requires t >= 0
    ensures TotalSeconds(TimeParts(t)) == t
  {
    var b := Breakdown(t);
    TimePartsDropLeadingZeros(t);
    BreakdownReconstructs(t);
    var all := AllParts(b);
    assert all[1..] == [Hours(b.hours), Minutes(b.minutes), Seconds(b.seconds)];
    assert all[2..] == [Minutes(b.minutes), Seconds(b.seconds)];
    assert all[3..] == [Seconds(b.seconds)];
    assert TotalSeconds(all[3..]) == b.seconds by {
      assert all[3..][1..] == [];
    }
    assert TotalSeconds(all[2..]) == b.minutes * 60 + b.seconds by {
      assert all[2..][1..] == all[3..];
    }
    assert TotalSeconds(all[1..]) == b.hours * 3600 + b.minutes * 60 + b.seconds by {
      assert all[1..][1..] == all[2..];
    }
    assert TotalSeconds(all) == DurationSeconds(b);
  }

  /** The visibility rule on three inputs: no time shows nothing, 59
      seconds show only seconds, 90061 seconds show one of each unit. */
  lemma TimePartsExamples()
    ensures TimeParts(0) == []
    ensures TimeParts(59) == [Seconds(59)]
    ensures TimeParts(90061) == [Days(1), Hours(1), Minutes(1), Seconds(1)]
  {
  }

  /** One packet block of the label. The packet, error and dropped counts
      reach the label through the int count of tr's plural form, so they
      are cut to 32 bits; the byte count is shown from the full qlonglong. */
  function Block(m: Snapshot, packets: string, bytes: string, errors: string, dropped: string): PacketBlock
  {
    PacketBlock(
      ToInt32(Read(m, packets)),
      ByteSize(Read(m, bytes), UnitFor(Read(m, bytes))),
      ToInt32(Read(m, errors)),
      ToInt32(Read(m, dropped)))
  }

  /** A count that fits in 32 bits is shown as it is. */
  lemma ToInt32InRange(v: int)
    requires -0x8000_0000 <= v < 0x8000_0000
    ensures ToInt32(v) == v
  {
  }

  /** The block shows the byte count exactly, and each of the other counts
      as a 32-bit value congruent to it, equal to it when it fits. */
  lemma BlockCounts(m: Snapshot, packets: string, bytes: string, errors: string, dropped: string)
    ensures var b := Block(m, packets, bytes, errors, dropped);
      && b.size == ByteSize(Read(m, bytes), UnitFor(Read(m, bytes)))
      && (b.packets - Read(m, packets)) % 0x1_0000_0000 == 0
      && (b.errors - Read(m, errors)) % 0x1_0000_0000 == 0
      && (b.dropped - Read(m, dropped)) % 0x1_0000_0000 == 0
      && (-0x8000_0000 <= Read(m, packets) < 0x8000_0000 ==> b.packets == Read(m, packets))
      && (-0x8000_0000 <= Read(m, errors) < 0x8000_0000 ==> b.errors == Read(m, errors))
      && (-0x8000_0000 <= Read(m, dropped) < 0x8000_0000 ==> b.dropped == Read(m, dropped))
  {
    if -0x8000_0000 <= Read(m, packets) < 0x8000_0000 {
      ToInt32InRange(Read(m, packets));
    }
    if -0x8000_0000 <= Read(m, errors) < 0x8000_0000 {
      ToInt32InRange(Read(m, errors));
    }
    if -0x8000_0000 <= Read(m, dropped) < 0x8000_0000 {
      ToInt32InRange(Read(m, dropped));
    }
  }

  /** Three billion packets are shown as a negative count. */
  lemma LargePacketCountShownNegative()
    ensures Block(map["TX.Packets" := 3000000000], "TX.Packets", "TX.Bytes", "TX.Errors", "TX.Dropped").packets
      == -1294967296
  {
  }

  /** getLabel: the transmit block, the receive block, the Connect Time
      title and the time parts of the snapshot's Time (read by toInt). */
  function GetLabel(m: Snapshot): seq<Segment>
  {
    var parts := TimeParts(ToInt32(Read(m, "Time")));
    [ Transmit(Block(m, "TX.Packets", "TX.Bytes", "TX.Errors", "TX.Dropped")),
      Received(Block(m, "RX.Packets", "RX.Bytes", "RX.Errors", "RX.Dropped")),
      ConnectTimeTitle ]
    + seq(|parts|, i requires 0 <= i < |parts| => Time(parts[i]))
  }

  /** The label is laid out in the order transmit, receive, title, time. */
  lemma LabelLayout(m: Snapshot)
    ensures var shown := GetLabel(m);
      && |shown| >= 3
      && shown[0].Transmit? && shown[1].Received? && shown[2] == ConnectTimeTitle
      && shown[0].block.size.unit == UnitFor(Read(m, "TX.Bytes"))
      && shown[1].block.size.unit == UnitFor(Read(m, "RX.Bytes"))
      && forall i :: 3 <= i < |shown| ==> shown[i].Time?
  {
  }

  /** A snapshot without Time, or with Time 0, ends at the title. */
  lemma NoTimeNothingAfterTitle(m: Snapshot)
    requires Read(m, "Time") == 0
    ensures |GetLabel(m)| == 3
  {
    TimePartsExamples();
  }

  class ConnmanCounter {
    var homeData: Snapshot
    var roamData: Snapshot

    constructor ()
      ensures homeData == map[] && roamData == map[]
    {
      homeData := map[];
      roamData := map[];
    }

    /** Usage: merge the home and roaming updates into the kept snapshots
        and hand back the two labels the usageUpdated signal carries,
        rendered from the whole snapshots. */
    method Usage(home: Update, roaming: Update) returns (homeLabel: seq<Segment>, roamLabel: seq<Segment>)
      modifies this
      ensures homeData == Merge(old(homeData), home)
      ensures roamData == Merge(old(roamData), roaming)
      ensures homeLabel == GetLabel(homeData) && roamLabel == GetLabel(roamData)
    {
      var i := 0;
      while i < |home|
        invariant 0 <= i <= |home|
        invariant homeData == Merge(old(homeData), home[..i])
        invariant roamData == old(roamData)
      {
        assert home[..i + 1][..i] == home[..i];
        homeData := homeData[home[i].0 := home[i].1];
        i := i + 1;
      }
      assert home[..i] == home;

      var j := 0;
      while j < |roaming|
        invariant 0 <= j <= |roaming|
        invariant roamData == Merge(old(roamData), roaming[..j])
        invariant homeData == Merge(old(homeData), home)
      {
        assert roaming[..j + 1][..j] == roaming[..j];
        roamData := roamData[roaming[j].0 := roaming[j].1];
        j := j + 1;
      }
      assert roaming[..j] == roaming;

      homeLabel := GetLabel(homeData);
      roamLabel := GetLabel(roamData);
    }
  }
}
