/** The packet manager: partial packets by id, and the cached entry of a full one. */
module Manager {
  import opened Bytes
  import opened Fragments
  import opened Wrappers

  datatype Signal = FullBuild | PartReceived | NoBuilderData

  type Packets = map<byte, Builder>

  /** 5 octets of builder header, 5 of record header, 40 of addresses and 256 of transport data. */
  const DATA_META_SIZE := 306

  /** A fragment with octets of its own that lie inside the packet it announces. */
  predicate Acceptable(f: seq<byte>) {
    |f| > BUILDER_HEADER && U16At(f, 1) < U16At(f, 3) && U16At(f, 1) + |f| - BUILDER_HEADER <= U16At(f, 3)
  }

  /** What an acceptable fragment makes of the entry with its id. */
  function Grown(packets: Packets, f: seq<byte>): Builder
    requires |f| >= BUILDER_HEADER
  {
    if f[0] in packets then AddData(packets[f[0]], f[1..]) else NewBuilder(f[1..])
  }

  function Built(packets: Packets, f: seq<byte>): Packets {
    if Acceptable(f) then packets[f[0] := Grown(packets, f)] else packets
  }

  function BuildSignal(packets: Packets, f: seq<byte>): Signal {
    if !Acceptable(f) then NoBuilderData
    else if f[0] !in packets && |f| - BUILDER_HEADER == U16At(f, 3) then FullBuild
    else PartReceived
  }

  predicate SomeFull(packets: Packets) {
    exists id :: id in packets && packets[id].full
  }

  /** A set cache points at a full entry that is present. */
  predicate CacheValid(packets: Packets, cache: Option<byte>) {
    cache.Some? ==> cache.value in packets && packets[cache.value].full
  }

  const FRESH := Builder(0, [], false)

  class QVPNPacketManager {
    var packets: Packets
    var cache: Option<byte>
    var lastPacketId: byte
    var dataMaxSize: u32
    var dataSplitSize: u16

    constructor ()
      ensures packets == map[] && cache == None && lastPacketId == 0
      ensures dataMaxSize == 65229 && dataSplitSize == 32615
    {
      packets, cache, lastPacketId := map[], None, 0;
      dataMaxSize := 0xFFFF - DATA_META_SIZE;
      dataSplitSize := (0xFFFF - DATA_META_SIZE) / 2 + 1;
    }

    ghost predicate Valid()
      reads this
    {
      CacheValid(packets, cache)
    }

    method BuildPacket(f: seq<byte>) returns (signal: Signal)
      requires Valid()
      modifies `packets
      ensures Valid()
      ensures packets == Built(old(packets), f) && signal == BuildSignal(old(packets), f)
    {
      if |f| <= BUILDER_HEADER {
        return NoBuilderData;
      }
      var size := |f| - BUILDER_HEADER;
      var offset, originalSize := U16At(f, 1), U16At(f, 3);
      if offset >= originalSize || size + offset > originalSize {
        return NoBuilderData;
      }
      var id := f[0];
      if id in packets {
        packets := packets[id := AddData(packets[id], f[1..])];
        return PartReceived;
      } else {
        packets := packets[id := NewBuilder(f[1..])];
        return if size == originalSize then FullBuild else PartReceived;
      }
    }

    /** Caches some full entry - which one is up to the hash map. */
    method HaveFullPackets() returns (found: bool)
      requires Valid()
      modifies `cache
      ensures Valid()
      ensures found == SomeFull(packets) && (found ==> cache.Some?) && (!found ==> cache == old(cache))
    {
      if id :| id in packets && packets[id].full {
        cache := Some(id);
        return true;
      }
      return false;
    }

    /** The cached packet; without one, and with none to be had, a fresh builder. */
    method GetAndPopPacket() returns (packet: Builder)
      requires Valid() && (cache.Some? || !SomeFull(packets))
      modifies `packets, `cache
      ensures Valid() && cache == None
      ensures packet == if old(cache).Some? then Assigned(FRESH, old(packets[cache.value])) else FRESH
      ensures packets == if old(cache).Some? then old(packets - {cache.value}) else old(packets)
    {
      packet := FRESH;
      if cache.Some? {
        packet := Assigned(FRESH, packets[cache.value]);
        PopLastPacket();
      }
    }

    method PopLastPacket()
      requires Valid()
      modifies `packets, `cache
      ensures Valid() && cache == None
      ensures packets == if old(cache).Some? then old(packets - {cache.value}) else old(packets)
    {
      if cache == None {
        return;
      }
      packets := packets - {cache.value};
      cache := None;
    }

    /** The id counter is bumped even when nothing is split off. */
    method SplitPacketView(n: nat) returns (id: byte, s: Split)
      requires n >= dataMaxSize ==> dataSplitSize > 0
      modifies `lastPacketId
      ensures id == old(lastPacketId) && lastPacketId == (id + 1) % 0x100
      ensures s == SplitView(n, dataMaxSize, dataSplitSize)
    {
      id := lastPacketId;
      lastPacketId := (lastPacketId + 1) % 0x100;
      s := Fragments.SplitPacketView(n, dataMaxSize, dataSplitSize);
    }

    /** A size below the metadata is not refused: the unsigned difference wraps. */
    method SetDataMaxSize(size: u32)
      modifies `dataMaxSize
      ensures dataMaxSize == if size > 0xFFFF - DATA_META_SIZE then old(dataMaxSize)
                             else if size >= DATA_META_SIZE then size - DATA_META_SIZE
                             else 0x1_0000_0000 + size - DATA_META_SIZE
    {
      if size > 0xFFFF - DATA_META_SIZE {
        return;
      }
      dataMaxSize := (size as int - DATA_META_SIZE) % 0x1_0000_0000;
    }

    method SetDataSplitSize(size: u16)
      modifies `dataSplitSize
      ensures dataSplitSize == if size > dataMaxSize then old(dataSplitSize) else size
    {
      if size > dataMaxSize {
        return;
      }
      dataSplitSize := size;
    }
  }

  /**
   * Of fragments as they are written, those are refused that carry nothing or reach beyond the size they
   * announce; every other one changes the packets in progress, but under its own id only.
   */
  lemma RefusedExactly(packets: Packets, id: byte, offset: u16, size: u16, octets: seq<byte>)
    ensures var built := Built(packets, Fragment(id, offset, size, octets));
            && (built == packets <==> octets == [] || offset + |octets| > size)
            && forall k :: k in packets && k != id ==> k in built && built[k] == packets[k]
  {
    var f := Fragment(id, offset, size, octets);
    FragmentFields(id, offset, size, octets);
    if Acceptable(f) {
      assert Built(packets, f)[id] == Grown(packets, f);
      assert id in packets ==> |Grown(packets, f).data| > |packets[id].data|;
    }
  }

  /**
   * What the signal tells: there was no builder data exactly when nothing has changed, a full packet
   * exactly when a new entry is full at once, and a part in all other cases - so that the fragment that
   * completes a split packet is announced as a part.
   */
  lemma SignalByEntry(packets: Packets, f: seq<byte>)
    ensures var built, signal := Built(packets, f), BuildSignal(packets, f);
            if built == packets then signal == NoBuilderData
            else
              && f != [] && f[0] in built
              && signal == if f[0] !in packets && built[f[0]].full then FullBuild else PartReceived
  {
    if Acceptable(f) {
      assert f[0] in packets ==> |Grown(packets, f).data| > |packets[f[0]].data|;
      assert Built(packets, f)[f[0]] == Grown(packets, f);
    }
  }

  // ----- draining -----

  /**
   * A run of asking for full packets and popping them: at every step any full entry may be the one
   * cached, `popped` lists ids and what was handed over for them, and `rest` is the map left so far.
   */
  predicate Drains(packets: Packets, popped: seq<(byte, Builder)>, rest: Packets)
    decreases |popped|
  {
    if popped == [] then rest == packets
    else
      var (id, b) := popped[0];
      && id in packets && packets[id].full && b == Assigned(FRESH, packets[id])
      && Drains(packets - {id}, popped[1..], rest)
  }

  function Incomplete(packets: Packets): Packets {
    map id | id in packets && !packets[id].full :: packets[id]
  }

  function FullIds(packets: Packets): set<byte> {
    set id | id in packets && packets[id].full
  }

  /**
   * Every run ends: each pop uses up one full packet, so that there is one left exactly as long as
   * fewer were popped than there were at first.
   */
  lemma {:induction false} DrainTerminates(packets: Packets, popped: seq<(byte, Builder)>, rest: Packets)
    requires Drains(packets, popped, rest)
    ensures |popped| + |FullIds(rest)| == |FullIds(packets)|
    ensures SomeFull(rest) <==> |popped| < |FullIds(packets)|
    decreases |popped|
  {
    if popped != [] {
      var id := popped[0].0;
      DrainTerminates(packets - {id}, popped[1..], rest);
      assert FullIds(packets - {id}) == FullIds(packets) - {id};
    }
    if SomeFull(rest) {
      var id :| id in rest && rest[id].full;
      assert id in FullIds(rest);
    } else {
      assert FullIds(rest) == {};
    }
  }

  /**
   * Whatever the hash map's order, a run that has ended handed over every full packet exactly once,
   * under its id and unchanged, and left the others as they are.
   */
  lemma {:induction false} DrainDeliversEachOnce(packets: Packets, popped: seq<(byte, Builder)>, rest: Packets)
    requires Drains(packets, popped, rest) && !SomeFull(rest) && NoEmptyEntry(packets)
    ensures rest == Incomplete(packets)
    ensures forall id, b :: multiset(popped)[(id, b)] == if id in packets && packets[id] == b && b.full then 1 else 0
    decreases |popped|
  {
    if popped != [] {
      var id := popped[0].0;
      var fewer := packets - {id};
      PoppedUnchanged(packets, id);
      DrainDeliversEachOnce(fewer, popped[1..], rest);
      assert Incomplete(packets) == Incomplete(fewer);
      assert popped == [popped[0]] + popped[1..];
    }
  }

  /** The cached entry is handed over unchanged: an accepted full packet is never empty. */
  lemma PoppedUnchanged(packets: Packets, id: byte)
    requires NoEmptyEntry(packets) && id in packets
    ensures Assigned(FRESH, packets[id]) == packets[id]
  {}

  predicate NoEmptyEntry(packets: Packets) {
    forall id :: id in packets ==> packets[id].data != []
  }

  lemma BuiltKeepsNoEmptyEntry(packets: Packets, f: seq<byte>)
    requires NoEmptyEntry(packets)
    ensures NoEmptyEntry(Built(packets, f))
  {
    if Acceptable(f) {
      assert Grown(packets, f).data != [];
    }
  }
}
