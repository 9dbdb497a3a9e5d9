/** Marshalling of remote procedure calls (source/sosal/rpc_socket.c): what the
    sender packs, what the receiver unpacks, and that the second undoes the first.
    The socket is a lossless stream of bytes. */
module RpcSocket {
  import opened Bytes

  const W: nat := 0x1_0000_0000

  type Word = x: int | 0 <= x < 0x1_0000_0000

  const HEADER_SIZE: nat := 16
  const ITEM_HEADER_SIZE: nat := 16
  const MAX_ARGS: nat := 10
  const MAX_DATA: nat := 128
  const MAX_PACKET: nat := HEADER_SIZE + MAX_ARGS * (ITEM_HEADER_SIZE + MAX_DATA)

  datatype Header = Header(length: Word, function_: Word, direction: Word, numItems: Word)

  // `data` is what the item pointer leads to.
  datatype Item = Item(length: Word, kind: Word, sizeElement: Word, numElements: Word, data: seq<Byte>)

  // ---- words as bytes, least significant first --------------------------------------

  function PutWord(w: Word): (s: seq<Byte>)
    ensures |s| == 4
  {
    [w % 0x100, w / 0x100 % 0x100, w / 0x100 / 0x100 % 0x100, w / 0x100 / 0x100 / 0x100]
  }

  function GetWord(s: seq<Byte>, at: nat): Word
    requires at + 4 <= |s|
  {
    (s[at] as int) + 0x100 * (s[at + 1] as int) + 0x1_0000 * (s[at + 2] as int) + 0x100_0000 * (s[at + 3] as int)
  }

  lemma WordRoundTrip(w: Word, s: seq<Byte>, at: nat)
    requires at + 4 <= |s| && s[at..at + 4] == PutWord(w)
    ensures GetWord(s, at) == w
  {
    var four := s[at..at + 4];
    assert s[at] == four[0] && s[at + 1] == four[1] && s[at + 2] == four[2] && s[at + 3] == four[3];
    Digits(w);
  }

  lemma Digits(w: Word)
    ensures w == w % 0x100 + 0x100 * (w / 0x100 % 0x100) + 0x1_0000 * (w / 0x100 / 0x100 % 0x100)
            + 0x100_0000 * (w / 0x100 / 0x100 / 0x100)
  {
  }

  // ---- the packet --------------------------------------------------------------------

  // 32-bit arithmetic, as in the source.
  function Wrap(x: nat): Word {
    x % W
  }

  function DataSize(item: Item): Word {
    Wrap(item.sizeElement * item.numElements)
  }

  function Filled(item: Item): Item {
    item.(length := Wrap(ITEM_HEADER_SIZE + DataSize(item)))
  }

  // The pointer leads to at least the bytes the sizes promise.
  predicate Backed(item: Item) {
    |item.data| >= DataSize(item)
  }

  predicate AllBacked(items: seq<Item>) {
    forall i {:trigger items[i]} :: 0 <= i < |items| ==> Backed(items[i])
  }

  function Payload(item: Item): seq<Byte>
    requires Backed(item)
  {
    item.data[..DataSize(item)]
  }

  function HeaderBytes(h: Header): (s: seq<Byte>)
    ensures |s| == HEADER_SIZE
  {
    PutWord(h.length) + PutWord(h.function_) + PutWord(h.direction) + PutWord(h.numItems)
  }

  function ItemHeader(item: Item): (s: seq<Byte>)
    ensures |s| == ITEM_HEADER_SIZE
  {
    PutWord(item.length) + PutWord(item.kind) + PutWord(item.sizeElement) + PutWord(item.numElements)
  }

  function ItemsBytes(items: seq<Item>): seq<Byte>
    requires AllBacked(items)
  {
    if items == [] then []
    else ItemsBytes(items[..|items| - 1]) + (ItemHeader(items[|items| - 1]) + Payload(items[|items| - 1]))
  }

  function Total(items: seq<Item>): nat {
    if items == [] then 0 else Total(items[..|items| - 1]) + ITEM_HEADER_SIZE + DataSize(items[|items| - 1])
  }

  lemma {:induction false} ItemsLength(items: seq<Item>)
    requires AllBacked(items)
    ensures |ItemsBytes(items)| == Total(items)
  {
    if items != [] {
      ItemsLength(items[..|items| - 1]);
    }
  }

  lemma {:induction false} TotalGrows(items: seq<Item>, n: nat)
    requires n <= |items|
    ensures Total(items[..n]) <= Total(items)
    decreases |items|
  {
    if n == |items| {
      assert items[..n] == items;
    } else {
      TotalGrows(items[..|items| - 1], n);
      assert items[..|items| - 1][..n] == items[..n];
    }
  }

  // Ten items of at most 128 bytes always fit into the largest packet.
  lemma {:induction false} FitsPacket(items: seq<Item>)
    requires |items| <= MAX_ARGS && forall i :: 0 <= i < |items| ==> DataSize(items[i]) <= MAX_DATA
    ensures HEADER_SIZE + Total(items) <= MAX_PACKET
  {
    TotalBound(items);
  }

  lemma {:induction false} TotalBound(items: seq<Item>)
    requires forall i :: 0 <= i < |items| ==> DataSize(items[i]) <= MAX_DATA
    ensures Total(items) <= 144 * |items|
  {
    if items != [] {
      TotalBound(items[..|items| - 1]);
    }
  }

  // ---- packing -------------------------------------------------------------------------

  // memcpy into the packet.
  method Copy(packet: array<Byte>, at: nat, bytes: seq<Byte>)
    requires at + |bytes| <= packet.Length
    modifies packet
    ensures packet[..] == Patch(old(packet[..]), at, bytes)
  {
    forall i | 0 <= i < |bytes| {
      packet[at + i] := bytes[i];
    }
  }

  function FilledAll(items: seq<Item>): (r: seq<Item>)
    ensures |r| == |items| && forall i {:trigger r[i]} :: 0 <= i < |r| ==> r[i] == Filled(items[i])
    ensures AllBacked(items) ==> AllBacked(r)
  {
    seq(|items|, i requires 0 <= i < |items| => Filled(items[i]))
  }

  lemma {:induction false} FilledTotal(items: seq<Item>)
    ensures Total(FilledAll(items)) == Total(items)
  {
    if items != [] {
      FilledTotal(items[..|items| - 1]);
      assert FilledAll(items)[..|items| - 1] == FilledAll(items[..|items| - 1]);
    }
  }

  lemma ItemsNext(items: seq<Item>, i: nat)
    requires i < |items| && AllBacked(items)
    ensures AllBacked(items[..i]) && AllBacked(items[..i + 1])
    ensures ItemsBytes(items[..i + 1]) == ItemsBytes(items[..i]) + (ItemHeader(items[i]) + Payload(items[i]))
    ensures Total(items[..i + 1]) == Total(items[..i]) + ITEM_HEADER_SIZE + DataSize(items[i])
  {
    assert items[..i + 1][..i] == items[..i];
  }

  // The first half of rpc_socket_send: each item's length, and their sum.
  method FillLengths(items: array<Item>) returns (length: Word)
    modifies items
    ensures items[..] == FilledAll(old(items[..])) && length == WrappedLength(items[..])
    ensures LengthsFilled(old(items[..]), items[..]) && length == (16 + Lengths(items[..])) % W
  {
    hide WrappedLength, FilledAll, Filled, Total, Lengths;
    ghost var was := items[..];
    length := HEADER_SIZE;
    NoItems();
    assert was[..0] == [];
    for i := 0 to items.Length
      invariant forall j :: 0 <= j < i ==> items[j] == Filled(old(items[j]))
      invariant forall j :: i <= j < items.Length ==> items[j] == old(items[j])
      invariant length == WrappedLength(was[..i])
    {
      items[i] := Filled(items[i]);
      LengthNext(was, i);
      length := Wrap(length + items[i].length);
    }
    assert was[..items.Length] == was;
    FilledLength(was);
    LengthsWrap(was);
    FilledFields(was);
  }

  // Each item carries the length that its sizes and its header come to.
  ghost predicate LengthsFilled(was: seq<Item>, items: seq<Item>) {
    && |was| == |items|
    && forall i {:trigger items[i]} :: 0 <= i < |items| ==>
         && items[i] == was[i].(length := items[i].length)
         && items[i].length == (16 + items[i].sizeElement * items[i].numElements) % W
  }

  // The sum of the lengths the items carry.
  function Lengths(items: seq<Item>): nat {
    if items == [] then 0 else Lengths(items[..|items| - 1]) + items[|items| - 1].length
  }

  lemma {:induction false} LengthsWrap(items: seq<Item>)
    ensures WrappedLength(items) == Wrap(16 + Lengths(FilledAll(items)))
  {
    hide WrappedLength, Wrap, FilledAll, Filled;
    if items == [] {
      NoItems();
      Sixteen();
    } else {
      var n := |items| - 1;
      LengthsWrap(items[..n]);
      LengthNext(items, n);
      assert items[..n + 1] == items;
      assert FilledAll(items)[..n] == FilledAll(items[..n]);
      hide Lengths;
      LengthsNext(FilledAll(items), n);
      WrapSome(16 + Lengths(FilledAll(items[..n])), Filled(items[n]).length);
    }
  }

  lemma Sixteen()
    ensures Wrap(16) == 16
  {
  }

  lemma LengthsNext(items: seq<Item>, n: nat)
    requires n == |items| - 1
    ensures Lengths(items) == Lengths(items[..n]) + items[n].length
  {
  }

  lemma WrapSome(a: nat, b: nat)
    ensures Wrap(Wrap(a) + b) == Wrap(a + b)
  {
  }

  lemma FilledFields(items: seq<Item>)
    ensures LengthsFilled(items, FilledAll(items))
  {
    forall i | 0 <= i < |items|
      ensures Filled(items[i]).length == (16 + items[i].sizeElement * items[i].numElements) % W
    {
      FilledItem(items[i]);
      WrapSum(16, items[i].sizeElement * items[i].numElements);
    }
  }

  // The header's length field.
  function WrappedLength(items: seq<Item>): Word {
    Wrap(HEADER_SIZE + Total(items))
  }

  lemma LengthNext(items: seq<Item>, i: nat)
    requires i < |items|
    ensures Wrap(WrappedLength(items[..i]) + Filled(items[i]).length) == WrappedLength(items[..i + 1])
  {
    TotalNext(items, i);
    FilledItem(items[i]);
    hide Total, DataSize, Filled;
    WrapSum(HEADER_SIZE + Total(items[..i]), ITEM_HEADER_SIZE + DataSize(items[i]));
  }

  lemma FilledItem(item: Item)
    ensures Filled(item).length == Wrap(ITEM_HEADER_SIZE + DataSize(item))
  {
  }

  lemma FilledLength(items: seq<Item>)
    ensures WrappedLength(FilledAll(items)) == WrappedLength(items)
  {
    hide Total, FilledAll, Wrap;
    FilledTotal(items);
  }

  lemma NoItems()
    ensures WrappedLength([]) == HEADER_SIZE
  {
    assert Total([]) == 0;
  }

  lemma FilledSizes(items: seq<Item>)
    requires AllBacked(items)
    ensures AllBacked(FilledAll(items))
    ensures forall i {:trigger FilledAll(items)[i]} :: 0 <= i < |items| ==>
            FilledAll(items)[i] == Filled(FilledAll(items)[i])
  {
  }

  lemma TotalNext(items: seq<Item>, i: nat)
    requires i < |items|
    ensures Total(items[..i + 1]) == Total(items[..i]) + ITEM_HEADER_SIZE + DataSize(items[i])
  {
    assert items[..i + 1][..i] == items[..i];
  }

  lemma WrapSum(a: nat, b: nat)
    ensures Wrap(Wrap(a) + Wrap(b)) == Wrap(a + b)
  {
  }

  method PackItem(packet: array<Byte>, at: nat, item: Item) returns (offset: nat)
    requires Backed(item) && at + ITEM_HEADER_SIZE + DataSize(item) <= packet.Length
    modifies packet
    ensures offset == at + ITEM_HEADER_SIZE + DataSize(item)
    ensures packet[..offset] == old(packet[..at]) + (ItemHeader(item) + Payload(item))
  {
    hide ItemHeader, Patch;
    offset := at;
    PatchPrefix(packet[..], offset, ItemHeader(item));
    Copy(packet, offset, ItemHeader(item));
    offset := offset + ITEM_HEADER_SIZE;
    PatchPrefix(packet[..], offset, Payload(item));
    Copy(packet, offset, Payload(item));
    offset := offset + DataSize(item);
  }

  // Item i is the first that does not fit into a packet of `len` bytes.
  ghost predicate FirstTooLong(items: seq<Item>, len: nat, i: nat) {
    i < |items| && HEADER_SIZE + Total(items[..i]) <= len < HEADER_SIZE + Total(items[..i + 1])
  }

  // The 32-bit sum of offset and length wraps around to something that seems to
  // fit: the copy then runs over the end of the packet.
  ghost predicate Overruns(items: seq<Item>, len: nat) {
    exists i: nat :: FirstTooLong(items, len, i) && Wrap(HEADER_SIZE + Total(items[..i]) + items[i].length) <= len
  }

  // One item of nearly 4 GiB is such a call: its length wraps around to 0.
  lemma HugeItem(data: seq<Byte>)
    requires |data| == 0xFFFF_FFF0
    ensures var item := Filled(Item(0, 0, 0xFFFF_FFF0, 1, data)); Backed(item) && Overruns([item], MAX_PACKET)
  {
    var item := Filled(Item(0, 0, 0xFFFF_FFF0, 1, data));
    assert DataSize(item) == 0xFFFF_FFF0 && item.length == 0;
    assert [item][..0] == [] && [item][..1] == [item];
    assert Total([item]) == ITEM_HEADER_SIZE + DataSize(item);
    assert FirstTooLong([item], MAX_PACKET, 0);
  }

  // Pack a call.  `safe` is false exactly when the copy overruns the packet.  If
  // it is true, packing fails exactly when the packet is too small, and otherwise
  // the packet starts with the wire form, whose length the header carries.
  method Pack(packet: array<Byte>, header: Header, items: array<Item>)
      returns (safe: bool, ok: bool, offset: nat, h: Header)
    requires HEADER_SIZE <= packet.Length < W && header.numItems == items.Length && AllBacked(items[..])
    modifies packet, items
    ensures items[..] == FilledAll(old(items[..])) && AllBacked(items[..])
    ensures !safe <==> Overruns(items[..], packet.Length)
    ensures safe ==> (ok <==> HEADER_SIZE + Total(items[..]) <= packet.Length)
    ensures h == header.(length := WrappedLength(items[..]))
    ensures safe && ok ==>
            offset == HEADER_SIZE + Total(items[..]) && packet[..offset] == HeaderBytes(h) + ItemsBytes(items[..])
    ensures LengthsFilled(old(items[..]), items[..]) && h.length == (16 + Lengths(items[..])) % W
    ensures safe && ok ==> Wire(packet[..offset], h, items[..])
  {
    hide *;
    ghost var was := items[..];
    FilledSizes(was);
    var length := FillLengths(items);
    h := header.(length := length);
    PatchPrefix(packet[..], 0, HeaderBytes(h));
    Copy(packet, 0, HeaderBytes(h));
    assert forall i {:trigger items[i]} :: 0 <= i < items.Length ==> items[i] == Filled(items[i]) by {
      assert items[..] == FilledAll(was);
    }
    safe, ok, offset := PackItems(packet, items);
    if safe && ok {
      WireForm(h, items[..]);
      assert packet[..offset] == HeaderBytes(h) + ItemsBytes(items[..]);
    }
  }

  // The second half: the items, one behind the other, as long as they fit.
  method PackItems(packet: array<Byte>, items: array<Item>) returns (safe: bool, ok: bool, offset: nat)
    requires HEADER_SIZE <= packet.Length < W && AllBacked(items[..])
    requires forall i {:trigger items[i]} :: 0 <= i < items.Length ==> items[i] == Filled(items[i])
    modifies packet
    ensures !safe <==> Overruns(items[..], packet.Length)
    ensures safe ==> (ok <==> HEADER_SIZE + Total(items[..]) <= packet.Length)
    ensures safe && ok ==>
            && offset == HEADER_SIZE + Total(items[..])
            && packet[..offset] == old(packet[..HEADER_SIZE]) + ItemsBytes(items[..])
  {
    hide ItemHeader, ItemsBytes, Total, DataSize, Payload, Backed, Overruns, Wrap;
    ghost var all, front := items[..], packet[..HEADER_SIZE];
    offset := HEADER_SIZE;
    Empty(all);
    safe, ok := true, true;
    var i := 0;
    while i < items.Length && ok && safe
      invariant 0 <= i <= items.Length && items[..] == all
      invariant safe && ok ==> offset == HEADER_SIZE + Total(all[..i]) <= packet.Length
      invariant safe && ok ==> packet[..offset] == front + ItemsBytes(all[..i])
      invariant safe && !ok ==> HEADER_SIZE + Total(all) > packet.Length && !Overruns(all, packet.Length)
      invariant !safe ==> Overruns(all, packet.Length)
      decreases items.Length - i, ok, safe
    {
      ItemsNext(all, i);
      if Wrap(offset + items[i].length) > packet.Length {
        ok := false;
        TooLong(all, packet.Length, i);
      } else if offset + ITEM_HEADER_SIZE + DataSize(items[i]) > packet.Length {
        safe := false;
        TooLong(all, packet.Length, i);
      } else {
        offset := PackItem(packet, offset, items[i]);
        assert packet[..offset] == front + (ItemsBytes(all[..i]) + (ItemHeader(all[i]) + Payload(all[i])));
        i := i + 1;
      }
    }
    assert all[..items.Length] == all;
    if safe && ok {
      AllFit(all, packet.Length);
    }
  }

  // A 32-bit sum that is too large means that the sum is.
  lemma TooLong(items: seq<Item>, len: nat, i: nat)
    requires i < |items| && HEADER_SIZE + Total(items[..i]) <= len
    requires Wrap(HEADER_SIZE + Total(items[..i]) + items[i].length) > len || HEADER_SIZE + Total(items[..i + 1]) > len
    requires items[i] == Filled(items[i])
    ensures FirstTooLong(items, len, i) && HEADER_SIZE + Total(items) > len
    ensures Overruns(items, len) <==> Wrap(HEADER_SIZE + Total(items[..i]) + items[i].length) <= len
  {
    hide *;
    var sum := HEADER_SIZE + Total(items[..i]) + items[i].length;
    assert Wrap(sum) <= HEADER_SIZE + Total(items[..i + 1]) by {
      TotalNext(items, i);
      FilledItem(items[i]);
      WrapLess(HEADER_SIZE + Total(items[..i]), ITEM_HEADER_SIZE + DataSize(items[i]));
    }
    TotalGrows(items, i + 1);
    IsFirst(items, len, i);
    OnlyFirst(items, len, i);
  }

  lemma IsFirst(items: seq<Item>, len: nat, i: nat)
    requires i < |items| && HEADER_SIZE + Total(items[..i]) <= len < HEADER_SIZE + Total(items[..i + 1])
    ensures FirstTooLong(items, len, i)
  {
    hide Total;
  }

  lemma OnlyFirst(items: seq<Item>, len: nat, i: nat)
    requires FirstTooLong(items, len, i)
    ensures Overruns(items, len) <==> Wrap(HEADER_SIZE + Total(items[..i]) + items[i].length) <= len
  {
    hide Total, FirstTooLong, Wrap;
    forall j: nat | FirstTooLong(items, len, j) ensures j == i {
      OneFirst(items, len, i, j);
    }
  }

  lemma WrapLess(a: nat, b: nat)
    ensures Wrap(a + Wrap(b)) <= a + b
  {
  }

  lemma OneFirst(items: seq<Item>, len: nat, i: nat, j: nat)
    requires FirstTooLong(items, len, i) && FirstTooLong(items, len, j)
    ensures i == j
  {
    hide Total;
    if i < j {
      TotalUpTo(items, i + 1, j);
    } else if j < i {
      TotalUpTo(items, j + 1, i);
    }
  }

  lemma TotalUpTo(items: seq<Item>, i: nat, j: nat)
    requires i <= j <= |items|
    ensures Total(items[..i]) <= Total(items[..j])
  {
    TotalGrows(items[..j], i);
    assert items[..j][..i] == items[..i];
  }

  lemma AllFit(items: seq<Item>, len: nat)
    requires HEADER_SIZE + Total(items) <= len
    ensures !Overruns(items, len)
  {
    hide Total;
    forall i: nat | i < |items| ensures !FirstTooLong(items, len, i) {
      TotalGrows(items, i + 1);
    }
  }

  lemma Empty(items: seq<Item>)
    ensures Total(items[..0]) == 0 && ItemsBytes(items[..0]) == []
  {
  }

  // ---- unpacking -----------------------------------------------------------------------

  function HeaderAt(s: seq<Byte>): Header
    requires |s| >= HEADER_SIZE
  {
    Header(GetWord(s, 0), GetWord(s, 4), GetWord(s, 8), GetWord(s, 12))
  }

  // The item header at `at`, still without data.
  function ItemAt(s: seq<Byte>, at: nat): Item
    requires at + ITEM_HEADER_SIZE <= |s|
  {
    Item(GetWord(s, at), GetWord(s, at + 4), GetWord(s, at + 8), GetWord(s, at + 12), [])
  }

  datatype Parsed = Bad | Good(items: seq<Item>, offset: nat)

  // `n` items from `at` on; Bad if they lead out of the packet.
  function Parse(s: seq<Byte>, at: nat, n: nat): (parsed: Parsed)
    ensures parsed.Good? ==> |parsed.items| == n
    decreases n
  {
    if n == 0 then Good([], at)
    else if at + ITEM_HEADER_SIZE > |s| then Bad
    else
      var item := ItemAt(s, at);
      var next := at + ITEM_HEADER_SIZE + DataSize(item);
      if next > |s| then Bad
      else match Parse(s, next, n - 1)
        case Bad => Bad
        case Good(items, offset) => Good([item.(data := s[at + ITEM_HEADER_SIZE..next])] + items, offset)
  }

  // What a receiver's item pointer leads to: nothing yet - then it is made to lead
  // into the packet - or memory of the receiver's own, which the bytes are copied to.
  datatype Room = Null | Own(size: nat)

  predicate Takes(room: Room, item: Item) { room.Own? ==> |item.data| <= room.size }

  // Each item has a receiver's item to go to, and room there.
  predicate AllTaken(rooms: seq<Room>, items: seq<Item>) {
    |items| <= |rooms| && forall i {:trigger items[i]} :: 0 <= i < |items| ==> Takes(rooms[i], items[i])
  }

  // The receiver trusts the lengths it is sent.  That is in order when the items
  // stay inside the packet buffer, the item array and the memory the items bring.
  predicate Trusted(s: seq<Byte>, rooms: seq<Room>) {
    |s| >= HEADER_SIZE
    && var parsed := Parse(s, HEADER_SIZE, HeaderAt(s).numItems);
    parsed.Good? && AllTaken(rooms, parsed.items)
  }

  // The server clears its ten items before each call.
  function NoRooms(): (rooms: seq<Room>)
    ensures |rooms| == MAX_ARGS
  {
    seq(MAX_ARGS, _ => Null)
  }

  predicate Arrives(stream: seq<Byte>, len: nat) {
    |stream| >= 4 && GetWord(stream, 0) <= len && GetWord(stream, 0) <= |stream|
  }

  // A header that announces an item and brings none.
  lemma ItemMissing()
    ensures var s := HeaderBytes(Header(HEADER_SIZE, 0, 0, 1));
            Arrives(s, HEADER_SIZE) && GetWord(s, 0) == HEADER_SIZE && !Trusted(s, NoRooms())
  {
    var h := Header(HEADER_SIZE, 0, 0, 1);
    HeaderRoundTrip(h, HeaderBytes(h));
  }

  // Receive from `stream` into the packet and the receiver's items.  `safe` is
  // false exactly when the lengths received lead out of the packet, of the items or
  // of the memory they bring; if it is true, receiving fails exactly when the stream
  // ends early or announces more than the packet can take.
  method Recv(stream: seq<Byte>, packet: array<Byte>, rooms: seq<Room>)
      returns (safe: bool, ok: bool, header: Header, items: seq<Item>, offset: nat)
    requires HEADER_SIZE <= packet.Length < W
    modifies packet
    ensures Arrives(stream, packet.Length) && GetWord(stream, 0) >= 4 ==>
              packet[..] == Patch(old(packet[..]), 0, stream[..GetWord(stream, 0)])
    ensures !safe <==> Arrives(stream, packet.Length) && (GetWord(stream, 0) < 4 || !Trusted(packet[..], rooms))
    ensures safe ==> (ok <==> Arrives(stream, packet.Length))
    ensures safe && ok ==>
            header == HeaderAt(packet[..]) && Good(items, offset) == Parse(packet[..], HEADER_SIZE, header.numItems)
  {
    safe, ok, header, items, offset := true, false, Header(0, 0, 0, 0), [], 0;
    if !Arrives(stream, packet.Length) {
      return;
    }
    var length := GetWord(stream, 0);
    if length < 4 {
      safe := false;
      return;
    }
    hide Parse, GetWord, Patch, AllTaken;
    Copy(packet, 0, stream[..4]);
    Copy(packet, 4, stream[4..length]);
    PatchJoin(old(packet[..]), 0, stream[..4], stream[4..length]);
    assert stream[..4] + stream[4..length] == stream[..length];
    header := HeaderAt(packet[..]);
    safe, items, offset := UnpackItems(packet, header.numItems, rooms);
    ok := safe;
  }

  // The rest of the items: whether they land, and what they are.
  ghost predicate Lands(parsed: Parsed, rooms: seq<Room>) {
    parsed.Good? && AllTaken(rooms, parsed.items)
  }

  method UnpackItems(packet: array<Byte>, n: nat, rooms: seq<Room>) returns (safe: bool, items: seq<Item>, offset: nat)
    ensures safe <==> Lands(Parse(packet[..], HEADER_SIZE, n), rooms)
    ensures safe ==> Good(items, offset) == Parse(packet[..], HEADER_SIZE, n)
  {
    hide ItemAt, DataSize, Parse, Lands, Takes;
    ghost var s := packet[..];
    safe, items, offset := true, [], HEADER_SIZE;
    var i := 0;
    assert rooms[0..] == rooms;
    while i < n && safe
      invariant 0 <= i <= n && (safe ==> i <= |rooms|)
      invariant !safe ==> !Lands(Parse(s, HEADER_SIZE, n), rooms)
      invariant safe ==> (Lands(Parse(s, offset, n - i), rooms[i..]) <==> Lands(Parse(s, HEADER_SIZE, n), rooms))
      invariant safe && Parse(s, offset, n - i).Good? ==>
                  Parse(s, HEADER_SIZE, n) == Good(items + Parse(s, offset, n - i).items,
                      Parse(s, offset, n - i).offset)
      decreases n - i, safe
    {
      LandsNext(s, offset, n - i, rooms[i..]);
      if i >= |rooms| || offset + ITEM_HEADER_SIZE > packet.Length {
        safe := false;
      } else {
        var item := ItemAt(packet[..], offset);
        var next := offset + ITEM_HEADER_SIZE + DataSize(item);
        if next > packet.Length || (rooms[i].Own? && DataSize(item) > rooms[i].size) {
          safe := false;
        } else {
          assert packet[offset + ITEM_HEADER_SIZE..next] == s[offset + ITEM_HEADER_SIZE..next];
          assert rooms[i..][1..] == rooms[i + 1..];
          ParseNext(s, offset, n - i);
          items := items + [item.(data := packet[offset + ITEM_HEADER_SIZE..next])];
          offset := next;
          i := i + 1;
        }
      }
    }
    ParseNone(s, offset);
    if safe {
      LandsNone(Parse(s, offset, 0), rooms[i..]);
    }
  }

  lemma LandsNone(parsed: Parsed, rooms: seq<Room>)
    requires parsed.Good? && parsed.items == []
    ensures Lands(parsed, rooms)
  {
  }

  lemma LandsNext(s: seq<Byte>, at: nat, n: nat, rooms: seq<Room>)
    requires n > 0
    ensures Lands(Parse(s, at, n), rooms) <==>
              && rooms != [] && at + ITEM_HEADER_SIZE <= |s|
              && var len := DataSize(ItemAt(s, at));
              && at + ITEM_HEADER_SIZE + len <= |s| && (rooms[0].Own? ==> len <= rooms[0].size)
              && Lands(Parse(s, at + ITEM_HEADER_SIZE + len, n - 1), rooms[1..])
  {
    ParseNext(s, at, n);
    hide Parse, ItemAt, DataSize;
    if Parse(s, at, n).Good? && rooms != [] {
      var len := DataSize(ItemAt(s, at));
      var more := Parse(s, at + ITEM_HEADER_SIZE + len, n - 1).items;
      TakenNext(rooms, ItemAt(s, at).(data := s[at + ITEM_HEADER_SIZE..at + ITEM_HEADER_SIZE + len]), more);
    }
  }

  lemma TakenNext(rooms: seq<Room>, item: Item, more: seq<Item>)
    requires rooms != []
    ensures AllTaken(rooms, [item] + more) <==> Takes(rooms[0], item) && AllTaken(rooms[1..], more)
  {
    var items := [item] + more;
    if AllTaken(rooms, items) {
      forall i | 0 <= i < |more| ensures Takes(rooms[1..][i], more[i]) {
        assert more[i] == items[i + 1];
      }
      assert items[0] == item;
    }
    if Takes(rooms[0], item) && AllTaken(rooms[1..], more) {
      forall i | 0 <= i < |items| ensures Takes(rooms[i], items[i]) {
        assert i > 0 ==> items[i] == more[i - 1] && rooms[i] == rooms[1..][i - 1];
      }
    }
  }

  lemma ParseNone(s: seq<Byte>, at: nat)
    ensures Parse(s, at, 0) == Good([], at)
  {
  }

  lemma ParseNext(s: seq<Byte>, at: nat, n: nat)
    requires n > 0
    ensures Parse(s, at, n).Good? <==>
              && at + ITEM_HEADER_SIZE <= |s| && at + ITEM_HEADER_SIZE + DataSize(ItemAt(s, at)) <= |s|
              && Parse(s, at + ITEM_HEADER_SIZE + DataSize(ItemAt(s, at)), n - 1).Good?
    ensures Parse(s, at, n).Good? ==>
              var next := at + ITEM_HEADER_SIZE + DataSize(ItemAt(s, at));
              Parse(s, at, n) == Good([ItemAt(s, at).(data := s[at + ITEM_HEADER_SIZE..next])]
                  + Parse(s, next, n - 1).items, Parse(s, next, n - 1).offset)
  {
  }

  // Bytes behind the packet do not matter.
  lemma {:induction false} ParseExtends(s: seq<Byte>, t: seq<Byte>, at: nat, n: nat)
    requires Parse(s, at, n).Good?
    ensures Parse(s + t, at, n) == Parse(s, at, n)
    decreases n
  {
    hide Parse, ItemAt, DataSize;
    if n == 0 {
      ParseNone(s, at);
      ParseNone(s + t, at);
    } else {
      ParseNext(s, at, n);
      var next := at + ITEM_HEADER_SIZE + DataSize(ItemAt(s, at));
      ParseExtends(s, t, next, n - 1);
      SameItem(s, t, at);
      SamePart(s, t, at + ITEM_HEADER_SIZE, next);
      ParseNext(s + t, at, n);
    }
  }

  lemma SamePart(s: seq<Byte>, t: seq<Byte>, i: nat, j: nat)
    requires i <= j <= |s|
    ensures (s + t)[i..j] == s[i..j]
  {
  }

  lemma SameItem(s: seq<Byte>, t: seq<Byte>, at: nat)
    requires at + ITEM_HEADER_SIZE <= |s|
    ensures ItemAt(s + t, at) == ItemAt(s, at)
  {
  }

  lemma SameHeader(s: seq<Byte>, t: seq<Byte>)
    requires |s| >= HEADER_SIZE
    ensures HeaderAt(s + t) == HeaderAt(s) && GetWord(s + t, 0) == GetWord(s, 0)
  {
  }

  // ---- the round trip --------------------------------------------------------------------

  // What arrives of the items sent: the bytes the sizes promise.
  function Sent(items: seq<Item>): (r: seq<Item>)
    requires AllBacked(items)
    ensures |r| == |items| && forall i {:trigger r[i]} :: 0 <= i < |r| ==> r[i] == items[i].(data := Payload(items[i]))
  {
    seq(|items|, i requires 0 <= i < |items| => items[i].(data := Payload(items[i])))
  }

  lemma HeaderRoundTrip(h: Header, s: seq<Byte>)
    requires |s| >= HEADER_SIZE && s[..HEADER_SIZE] == HeaderBytes(h)
    ensures HeaderAt(s) == h
  {
    var b := HeaderBytes(h);
    assert b[0..4] == PutWord(h.length) && b[4..8] == PutWord(h.function_);
    assert b[8..12] == PutWord(h.direction) && b[12..16] == PutWord(h.numItems);
    hide PutWord, GetWord;
    assert s[0..4] == b[0..4] && s[4..8] == b[4..8] && s[8..12] == b[8..12] && s[12..16] == b[12..16];
    WordRoundTrip(h.length, s, 0);
    WordRoundTrip(h.function_, s, 4);
    WordRoundTrip(h.direction, s, 8);
    WordRoundTrip(h.numItems, s, 12);
  }

  lemma InPrefix(front: seq<Byte>, before: seq<Byte>, mine: seq<Byte>, whole: seq<Byte>)
    requires before + mine <= whole
    ensures |front| + |before| + |mine| <= |front + whole|
    ensures (front + whole)[|front| + |before|..|front| + |before| + |mine|] == mine
  {
    assert whole[..|before + mine|] == before + mine;
    var part := (front + whole)[|front| + |before|..|front| + |before| + |mine|];
    assert forall k :: 0 <= k < |mine| ==> part[k] == whole[..|before + mine|][|before| + k];
  }

  lemma ItemRoundTrip(item: Item, s: seq<Byte>, at: nat)
    requires at + ITEM_HEADER_SIZE <= |s| && s[at..at + ITEM_HEADER_SIZE] == ItemHeader(item)
    ensures ItemAt(s, at) == item.(data := [])
  {
    var b := ItemHeader(item);
    assert b[0..4] == PutWord(item.length) && b[4..8] == PutWord(item.kind);
    assert b[8..12] == PutWord(item.sizeElement) && b[12..16] == PutWord(item.numElements);
    hide PutWord, GetWord, ItemHeader;
    Slice(s, at, 16, 0, 4);
    Slice(s, at, 16, 4, 8);
    Slice(s, at, 16, 8, 12);
    Slice(s, at, 16, 12, 16);
    WordRoundTrip(item.length, s, at);
    WordRoundTrip(item.kind, s, at + 4);
    WordRoundTrip(item.sizeElement, s, at + 8);
    WordRoundTrip(item.numElements, s, at + 12);
  }

  lemma {:induction false} BytesPrefix(items: seq<Item>, n: nat)
    requires n <= |items| && AllBacked(items)
    ensures AllBacked(items[..n]) && ItemsBytes(items[..n]) <= ItemsBytes(items)
    decreases |items|
  {
    if n == |items| {
      assert items[..n] == items;
    } else {
      BytesPrefix(items[..|items| - 1], n);
      assert items[..|items| - 1][..n] == items[..n];
    }
  }

  // The bytes of item i lie where the items before it end.
  lemma ItemPlace(items: seq<Item>, i: nat, front: seq<Byte>)
    requires i < |items| && AllBacked(items)
    ensures var s, at := front + ItemsBytes(items), |front| + Total(items[..i]);
            && at + ITEM_HEADER_SIZE + DataSize(items[i]) == |front| + Total(items[..i + 1]) <= |s|
            && s[at..at + ITEM_HEADER_SIZE] == ItemHeader(items[i])
            && s[at + ITEM_HEADER_SIZE..at + ITEM_HEADER_SIZE + DataSize(items[i])] == Payload(items[i])
  {
    hide ItemsBytes, Total, ItemHeader, DataSize, AllBacked;
    var s, at := front + ItemsBytes(items), |front| + Total(items[..i]);
    var mine := ItemWhole(items, i, front);
    hide *;
    Slice(s, at, |mine|, 0, ITEM_HEADER_SIZE);
    Slice(s, at, |mine|, ITEM_HEADER_SIZE, |mine|);
  }

  lemma ItemWhole(items: seq<Item>, i: nat, front: seq<Byte>) returns (mine: seq<Byte>)
    requires i < |items| && AllBacked(items)
    ensures var s, at := front + ItemsBytes(items), |front| + Total(items[..i]);
            && |mine| == ITEM_HEADER_SIZE + DataSize(items[i])
            && at + |mine| == |front| + Total(items[..i + 1]) <= |s| && s[at..at + |mine|] == mine
            && Backed(items[i]) && mine[..ITEM_HEADER_SIZE] == ItemHeader(items[i])
                && mine[ITEM_HEADER_SIZE..] == Payload(items[i])
  {
    assert Backed(items[i]);
    hide ItemsBytes, Total, ItemHeader, DataSize, Backed, AllBacked;
    ItemsNext(items, i);
    BytesPrefix(items, i + 1);
    ItemsLength(items[..i]);
    ItemsLength(items[..i + 1]);
    mine := ItemHeader(items[i]) + Payload(items[i]);
    InPrefix(front, ItemsBytes(items[..i]), mine, ItemsBytes(items));
  }

  lemma {:induction false} ParseItems(items: seq<Item>, i: nat, front: seq<Byte>)
    requires i <= |items| && AllBacked(items)
    ensures Parse(front + ItemsBytes(items), |front| + Total(items[..i]), |items| - i)
            == Good(Sent(items)[i..], |front| + Total(items))
    decreases |items| - i
  {
    hide ItemHeader, ItemsBytes, Total, Payload, ItemAt, Parse, DataSize, Backed;
    var s, at := front + ItemsBytes(items), |front| + Total(items[..i]);
    if i == |items| {
      assert items[..i] == items;
      ParseNone(s, at);
      assert Sent(items)[i..] == [];
    } else {
      ItemPlace(items, i, front);
      ItemRoundTrip(items[i], s, at);
      ParseItems(items, i + 1, front);
      ParseOne(s, at, |items| - i, items[i]);
      hide Sent, AllBacked;
      var more := Sent(items)[i + 1..];
      assert Parse(s, at, |items| - i) == Good([Sent(items)[i]] + more, |front| + Total(items));
      assert Sent(items)[i..] == [Sent(items)[i]] + more;
    }
  }

  lemma SameSize(item: Item)
    ensures DataSize(item.(data := [])) == DataSize(item)
  {
  }

  lemma ParseOne(s: seq<Byte>, at: nat, n: nat, item: Item)
    requires n > 0 && Backed(item) && at + ITEM_HEADER_SIZE + DataSize(item) <= |s|
    requires ItemAt(s, at) == item.(data := [])
    requires s[at + ITEM_HEADER_SIZE..at + ITEM_HEADER_SIZE + DataSize(item)] == Payload(item)
    requires Parse(s, at + ITEM_HEADER_SIZE + DataSize(item), n - 1).Good?
    ensures var more := Parse(s, at + ITEM_HEADER_SIZE + DataSize(item), n - 1);
            Parse(s, at, n) == Good([item.(data := Payload(item))] + more.items, more.offset)
  {
    SameSize(item);
    hide ItemAt;
  }

  // ---- the wire form in the fields alone ----------------------------------------------------

  // Four bytes that mean the word, the least significant first.
  ghost predicate WordAt(s: seq<Byte>, at: nat, w: Word) {
    && at + 4 <= |s|
    && w == (s[at] as int) + 0x100 * (s[at + 1] as int) + 0x1_0000 * (s[at + 2] as int)
            + 0x100_0000 * (s[at + 3] as int)
  }

  // What the sizes of an item come to, in 32 bits.
  ghost function Product(item: Item): nat {
    item.sizeElement * item.numElements % 0x1_0000_0000
  }

  ghost predicate OnWire(s: seq<Byte>, at: nat, item: Item) {
    && at + 16 + Product(item) <= |s| && Product(item) <= |item.data|
    && WordAt(s, at, item.length) && WordAt(s, at + 4, item.kind)
    && WordAt(s, at + 8, item.sizeElement) && WordAt(s, at + 12, item.numElements)
    && s[at + 16..at + 16 + Product(item)] == item.data[..Product(item)]
  }

  // Where the items begin, and where the last one ends.
  ghost predicate Places(items: seq<Item>, at: seq<nat>) {
    && |at| == |items| + 1 && at[0] == 16
    && forall i {:trigger at[i + 1]} :: 0 <= i < |items| ==> at[i + 1] == at[i] + 16 + Product(items[i])
  }

  ghost predicate ItemsOnWire(s: seq<Byte>, at: seq<nat>, items: seq<Item>) {
    && |at| == |items| + 1 && |s| == at[|items|]
    && forall i {:trigger items[i]} :: 0 <= i < |items| ==> OnWire(s, at[i], items[i])
  }

  ghost predicate Wire(s: seq<Byte>, h: Header, items: seq<Item>) {
    && WordAt(s, 0, h.length) && WordAt(s, 4, h.function_) && WordAt(s, 8, h.direction) && WordAt(s, 12, h.numItems)
    && forall at: seq<nat> :: Places(items, at) ==> ItemsOnWire(s, at, items)
  }

  // The bytes that arrive of each item are as many as its sizes say.
  ghost predicate Delivered(items: seq<Item>, arrived: seq<Item>) {
    && |arrived| == |items|
    && forall i {:trigger arrived[i]} :: 0 <= i < |items| ==>
         && Product(items[i]) <= |items[i].data|
         && arrived[i] == items[i].(data := items[i].data[..Product(items[i])])
  }

  lemma SizeIsProduct(item: Item)
    ensures DataSize(item) == Product(item)
  {
  }

  lemma SentIsDelivered(items: seq<Item>)
    requires AllBacked(items)
    ensures Delivered(items, Sent(items))
  {
    forall i {:trigger items[i]} | 0 <= i < |items| ensures DataSize(items[i]) == Product(items[i]) {
      SizeIsProduct(items[i]);
    }
    hide DataSize, Product;
  }

  lemma {:induction false} PlaceOf(items: seq<Item>, at: seq<nat>, n: nat)
    requires Places(items, at) && n <= |items|
    ensures at[n] == HEADER_SIZE + Total(items[..n])
  {
    hide Product, DataSize;
    if n > 0 {
      PlaceOf(items, at, n - 1);
      TotalNext(items, n - 1);
      SizeIsProduct(items[n - 1]);
      assert at[n - 1 + 1] == at[n - 1] + 16 + Product(items[n - 1]);
    }
  }

  lemma WordIs(s: seq<Byte>, at: nat, w: Word)
    requires at + 4 <= |s| && GetWord(s, at) == w
    ensures WordAt(s, at, w)
  {
  }

  lemma ItemOnWire(s: seq<Byte>, at: nat, item: Item)
    requires Backed(item) && at + ITEM_HEADER_SIZE + DataSize(item) <= |s|
    requires s[at..at + ITEM_HEADER_SIZE] == ItemHeader(item)
    requires s[at + ITEM_HEADER_SIZE..at + ITEM_HEADER_SIZE + DataSize(item)] == Payload(item)
    ensures OnWire(s, at, item)
  {
    SizeIsProduct(item);
    ItemRoundTrip(item, s, at);
    hide GetWord, WordAt, DataSize, Product, ItemHeader;
    WordIs(s, at, item.length);
    WordIs(s, at + 4, item.kind);
    WordIs(s, at + 8, item.sizeElement);
    WordIs(s, at + 12, item.numElements);
  }

  lemma HeaderOnWire(h: Header, s: seq<Byte>)
    requires |s| >= HEADER_SIZE && s[..HEADER_SIZE] == HeaderBytes(h)
    ensures WordAt(s, 0, h.length) && WordAt(s, 4, h.function_) && WordAt(s, 8, h.direction)
    ensures WordAt(s, 12, h.numItems)
  {
    HeaderRoundTrip(h, s);
    hide GetWord, WordAt, HeaderBytes;
    WordIs(s, 0, h.length);
    WordIs(s, 4, h.function_);
    WordIs(s, 8, h.direction);
    WordIs(s, 12, h.numItems);
  }

  lemma PlacedOnWire(front: seq<Byte>, items: seq<Item>, at: seq<nat>)
    requires AllBacked(items) && |front| == HEADER_SIZE && Places(items, at)
    ensures ItemsOnWire(front + ItemsBytes(items), at, items)
  {
    var s := front + ItemsBytes(items);
    assert |at| == |items| + 1;
    hide ItemsBytes, Total, Places, OnWire, ItemHeader, DataSize, Payload, Backed;
    ItemsLength(items);
    PlaceOf(items, at, |items|);
    assert items[..|items|] == items;
    forall i {:trigger items[i]} | 0 <= i < |items| ensures OnWire(s, at[i], items[i]) {
      PlaceOf(items, at, i);
      ItemPlace(items, i, front);
      ItemOnWire(s, at[i], items[i]);
    }
  }

  // The packet, field by field.
  lemma WireForm(h: Header, items: seq<Item>)
    requires AllBacked(items)
    ensures Wire(HeaderBytes(h) + ItemsBytes(items), h, items)
  {
    hide HeaderBytes, ItemsBytes, WordAt, Places, ItemsOnWire, AllBacked;
    HeaderOnWire(h, HeaderBytes(h) + ItemsBytes(items));
    forall at: seq<nat> | Places(items, at)
      ensures ItemsOnWire(HeaderBytes(h) + ItemsBytes(items), at, items)
    {
      PlacedOnWire(HeaderBytes(h), items, at);
    }
  }

  // What Pack writes, Recv reads back, whatever the buffer holds behind it: the
  // header, every item with its bytes, and an end offset that is the length the
  // header carries.  It is received safely exactly when each item has room.
  lemma RoundTrip(h: Header, items: seq<Item>, behind: seq<Byte>, rooms: seq<Room>)
    requires AllBacked(items) && h.numItems == |items| && h.length == HEADER_SIZE + Total(items)
    ensures var s := HeaderBytes(h) + ItemsBytes(items);
            && |s| == h.length == GetWord(s, 0) && HeaderAt(s + behind) == h
            && Parse(s + behind, HEADER_SIZE, h.numItems) == Good(Sent(items), h.length)
            && (Trusted(s + behind, rooms) <==> AllTaken(rooms, Sent(items)))
            && Wire(s, h, items) && Delivered(items, Parse(s + behind, HEADER_SIZE, h.numItems).items)
  {
    hide HeaderBytes, ItemsBytes, Total, Sent, Parse, AllBacked, AllTaken, Wire, Delivered;
    WireForm(h, items);
    SentIsDelivered(items);
    var s := HeaderBytes(h) + ItemsBytes(items);
    ItemsLength(items);
    HeaderRoundTrip(h, s);
    ParseItems(items, 0, HeaderBytes(h));
    Empty(items);
    assert Sent(items)[0..] == Sent(items);
    ParseExtends(s, behind, HEADER_SIZE, h.numItems);
    SameHeader(s, behind);
  }

  // A reply of one item of eight bytes to a caller with room for four: it stays
  // inside packet and items, so that a receiver without memory of its own takes it, or
  // one with room for eight, and overruns the caller's buffer.
  lemma ShortReply(data: seq<Byte>)
    requires |data| == 8
    ensures var item := Filled(Item(0, 0, 8, 1, data));
            Backed(item)
            && var s := HeaderBytes(Header(HEADER_SIZE + ITEM_HEADER_SIZE + 8, 0, 1, 1)) + ItemsBytes([item]);
            Arrives(s, MAX_PACKET) && Trusted(s, [Null]) && !Trusted(s, [Own(4)])
            && Trusted(s, [Own(8)]) && !Trusted(s, [Own(7)]) && !Trusted(s, [])
  {
    var item := Filled(Item(0, 0, 8, 1, data));
    var h := Header(HEADER_SIZE + ITEM_HEADER_SIZE + 8, 0, 1, 1);
    assert DataSize(item) == 8 && [item][..0] == [];
    assert Total([item]) == ITEM_HEADER_SIZE + 8;
    assert Sent([item])[0] == item.(data := Payload(item));
    hide HeaderBytes, ItemsBytes, Total, Parse, HeaderAt, GetWord, Trusted, Sent;
    var s := HeaderBytes(h) + ItemsBytes([item]);
    RoundTrip(h, [item], [], [Null]);
    RoundTrip(h, [item], [], [Own(4)]);
    RoundTrip(h, [item], [], [Own(7)]);
    RoundTrip(h, [item], [], [Own(8)]);
    RoundTrip(h, [item], [], []);
    assert s + [] == s;
  }

  // With at most ten items of at most 128 bytes the packet always suffices.
  method PackSmall(packet: array<Byte>, header: Header, items: array<Item>) returns (offset: nat, h: Header)
    requires packet.Length == MAX_PACKET && header.numItems == items.Length <= MAX_ARGS && AllBacked(items[..])
    requires forall i {:trigger items[i]} :: 0 <= i < items.Length ==> DataSize(items[i]) <= MAX_DATA
    modifies packet, items
    ensures items[..] == FilledAll(old(items[..])) && AllBacked(items[..])
    ensures h == header.(length := WrappedLength(items[..])) && h.length == HEADER_SIZE + Total(items[..])
    ensures offset == h.length <= packet.Length && packet[..offset] == HeaderBytes(h) + ItemsBytes(items[..])
    ensures LengthsFilled(old(items[..]), items[..]) && h.length == (16 + Lengths(items[..])) % W
    ensures Wire(packet[..offset], h, items[..])
  {
    FitsPacket(items[..]);
    FilledTotal(items[..]);
    hide HeaderBytes, ItemsBytes, Total, AllBacked, Overruns, WrappedLength, DataSize, FilledAll, Lengths,
        LengthsFilled,
        Wire;
    SmallLength(items[..]);
    AllFit(FilledAll(items[..]), packet.Length);
    var safe, ok;
    safe, ok, offset, h := Pack(packet, header, items);
  }

  lemma SmallLength(items: seq<Item>)
    ensures HEADER_SIZE + Total(FilledAll(items)) <= MAX_PACKET ==>
            WrappedLength(FilledAll(items)) == HEADER_SIZE + Total(FilledAll(items))
  {
    hide Total, FilledAll;
  }

  // One call from the client's packet to the server's: all of it arrives.
  method Deliver(sending: array<Byte>, receiving: array<Byte>, header: Header, items: array<Item>)
      returns (got: Header, arrived: seq<Item>, offset: nat)
    requires sending != receiving && sending.Length == receiving.Length == MAX_PACKET
    requires header.numItems == items.Length <= MAX_ARGS && AllBacked(items[..])
    requires forall i {:trigger items[i]} :: 0 <= i < items.Length ==> DataSize(items[i]) <= MAX_DATA
    modifies sending, receiving, items
    ensures items[..] == FilledAll(old(items[..])) && AllBacked(items[..])
    ensures got == header.(length := WrappedLength(items[..])) && offset == got.length
    ensures arrived == Sent(items[..])
    ensures LengthsFilled(old(items[..]), items[..]) && got.length == (16 + Lengths(items[..])) % W
    ensures Delivered(items[..], arrived)
  {
    hide HeaderBytes, ItemsBytes, Total, Sent, Parse, AllBacked, HeaderAt, GetWord, WrappedLength, DataSize, FilledAll,
        Trusted, Lengths, LengthsFilled, Wire, Delivered;
    offset, got := PackSmall(sending, header, items);
    got, arrived, offset := ReceiveSmall(sending[..offset], receiving, got, items[..]);
    SentIsDelivered(items[..]);
  }

  // Receiving what was packed.
  method ReceiveSmall(stream: seq<Byte>, packet: array<Byte>, ghost h: Header, ghost all: seq<Item>)
      returns (header: Header, items: seq<Item>, offset: nat)
    requires AllBacked(all) && h.numItems == |all| <= MAX_ARGS
    requires h.length == HEADER_SIZE + Total(all) <= packet.Length == MAX_PACKET
    requires stream == HeaderBytes(h) + ItemsBytes(all)
    modifies packet
    ensures header == h && items == Sent(all) && offset == h.length
  {
    hide HeaderBytes, ItemsBytes, Total, Sent, Parse, AllBacked, HeaderAt, GetWord, Trusted, Patch;
    ghost var behind := packet[h.length..];
    RoundTrip(h, all, behind, NoRooms());
    FrontPatched(packet[..], stream);
    assert stream[..h.length] == stream;
    var safe, ok;
    safe, ok, header, items, offset := Recv(stream, packet, NoRooms());
  }

  lemma FrontPatched(s: seq<Byte>, data: seq<Byte>)
    requires |data| <= |s|
    ensures Patch(s, 0, data) == data + s[|data|..]
  {
  }
}
