/** The chained hash table (source/sosal/hash.c) against the finite map it stands
    for.  A bucket is the sequence of records on its list; the list operations act
    on it as ListOrder says they do. */
module Hash {
  import opened Arithmetic
  import opened ListOrder

  datatype Record = Record(key: nat, value: nat)

  // A slot of the table: no list, or a list.
  datatype Bucket = Null | Chain(records: seq<Record>)

  type KeyFunc = (nat, nat) -> nat

  function CompareRecord(a: Record, b: Record): int {
    if a.key > b.key then 1 else if a.key == b.key then 0 else -1
  }

  // ---- the default key function -------------------------------------------------

  const WORD: nat := 0x1_0000_0000_0000_0000

  function Mix(keyin: bv64): bv64 {
    var a := keyin + (keyin << 10);
    var b := a ^ (a >> 6);
    var c := b + (b << 3);
    var d := c ^ (c >> 11);
    d + (d << 15)
  }

  // What the keys 1, 2 and 255 mix to.
  lemma MixExamples()
    ensures Mix(1) == 0x124E_A49D && Mix(2) == 0x249D_C93B && Mix(255) == 0x11_C7B2_0F1D
  {
  }

  // The mixed key cut down to as many bits as the table size says.
  function DefaultKey(size: nat, key: nat): nat {
    var mixed := Mix((key % WORD) as bv64);
    if size == 8 then ((mixed & 0xFF) as bv8) as nat
    else if size == 12 then ((mixed & 0xFFF) as bv12) as nat
    else ((mixed & 0xFFFF) as bv16) as nat
  }

  // The default key is what the mixed word leaves when it is divided by the number of
  // slots.
  lemma DefaultKeyIsRemainder(key: nat)
    ensures DefaultKey(8, key) == ((Mix((key % WORD) as bv64) % 256) as bv8) as nat
    ensures DefaultKey(12, key) == ((Mix((key % WORD) as bv64) % 4096) as bv12) as nat
    ensures DefaultKey(16, key) == ((Mix((key % WORD) as bv64) % 65536) as bv16) as nat
  {
    hide Mix;
    MaskIsRemainder(Mix((key % WORD) as bv64));
  }

  lemma MaskIsRemainder(m: bv64)
    ensures m & 0xFF == m % 256 && m & 0xFFF == m % 4096 && m & 0xFFFF == m % 65536
  {
  }

  // For each of the three table sizes the default key is a slot of the table.
  lemma DefaultKeyInRange(size: nat, key: nat)
    requires size in {8, 12, 16}
    ensures DefaultKey(size, key) < Pow2(size)
  {
    Powers();
  }

  lemma Powers()
    ensures Pow2(8) == 256 && Pow2(12) == 4096 && Pow2(16) == 65536
  {
    assert Pow2(8) == 256;
    assert Pow2(9) == 512 && Pow2(10) == 1024 && Pow2(11) == 2048;
    assert Pow2(12) == 4096 && Pow2(13) == 8192 && Pow2(14) == 16384 && Pow2(15) == 32768;
  }

  // ---- one bucket ---------------------------------------------------------------

  function Records(b: Bucket): seq<Record> {
    if b.Null? then [] else b.records
  }

  ghost predicate Strict(s: seq<Record>) {
    forall i, j :: 0 <= i < j < |s| ==> s[i].key < s[j].key
  }

  lemma CompareRecordIsTotal()
    ensures TotalPreorder(CompareRecord)
  {
  }

  lemma CutStrict(s: seq<Record>, k: nat)
    requires Strict(s) && k < |s|
    ensures Strict(Cut(s, k))
    ensures forall x {:trigger x in Cut(s, k)} :: x in Cut(s, k) <==> x in s && x.key != s[k].key
  {
    var c := Cut(s, k);
    forall i | 0 <= i < |c| ensures c[i] == s[if i < k then i else i + 1] {}
    hide Cut;
    forall x | x in s && x.key != s[k].key ensures x in c {
      var i :| 0 <= i < |s| && s[i] == x;
      assert c[if i < k then i else i - 1] == x;
    }
  }

  lemma SpliceStrict(s: seq<Record>, p: nat, r: Record)
    requires Strict(s) && p <= |s|
    requires forall i :: 0 <= i < p ==> s[i].key < r.key
    requires forall i :: p <= i < |s| ==> r.key < s[i].key
    ensures Strict(Splice(s, p, r))
    ensures forall x {:trigger x in Splice(s, p, r)} :: x in Splice(s, p, r) <==> x in s || x == r
  {
    var t := Splice(s, p, r);
    assert s == s[..p] + s[p..];
    assert forall i :: 0 <= i < |t| ==> t[i] == if i < p then s[i] else if i == p then r else s[i - 1];
  }

  // The search finds the only record with the key.
  lemma Found(s: seq<Record>, r: Record)
    requires Strict(s)
    ensures var k := Match(CompareRecord, s, r, 0);
            if k < |s| then s[k].key == r.key && s[k] in s && forall x :: x in s && x.key == r.key ==> x == s[k]
            else forall x :: x in s ==> x.key != r.key
  {
    var k := Match(CompareRecord, s, r, 0);
    hide Match;
    forall x | x in s && k < |s| && x.key == r.key ensures x == s[k] {
      var i :| 0 <= i < |s| && s[i] == x;
      assert CompareRecord(s[k], r) == 0;
    }
    forall x | x in s && k == |s| ensures x.key != r.key {
      var i :| 0 <= i < |s| && s[i] == x;
      assert CompareRecord(s[i], r) != 0;
    }
  }

  // A new key goes between the smaller and the larger ones.
  lemma Inserted(s: seq<Record>, r: Record)
    requires Strict(s) && forall x :: x in s ==> x.key != r.key
    ensures var p := InsertPosition(CompareRecord, true, s, r);
            && 0 <= p <= |s| && Strict(Splice(s, p, r))
            && (forall x {:trigger x in Splice(s, p, r)} :: x in Splice(s, p, r) <==> x in s || x == r)
  {
    CompareRecordIsTotal();
    var p := InsertPosition(CompareRecord, true, s, r);
    hide TotalPreorder, Splice;
    if s != [] {
      assert Sorted(CompareRecord, true, s);
      InsertBetween(CompareRecord, true, s, r, 0);
    }
    hide InsertPosition, InsertFrom, Sorted;
    forall i | 0 <= i < p ensures s[i].key < r.key { assert s[i] in s && Towards(CompareRecord, true, s[i], r) <= 0; }
    forall i | p <= i < |s| ensures r.key < s[i].key { assert s[i] in s && Towards(CompareRecord, true, r, s[i]) <= 0; }
    SpliceStrict(s, p, r);
  }

  // Which value the searched record carries does not matter.
  lemma {:induction false} MatchKeyFrom(s: seq<Record>, key: nat, value: nat, i: nat)
    requires i <= |s|
    ensures Match(CompareRecord, s, Record(key, value), i) == Match(CompareRecord, s, Record(key, 0), i)
    decreases |s| - i
  {
    if i < |s| {
      MatchKeyFrom(s, key, value, i + 1);
    }
  }

  // A bucket without a key, and with a record in the place of any other with its key.
  function Without(s: seq<Record>, key: nat): seq<Record> {
    var k := Match(CompareRecord, s, Record(key, 0), 0);
    if k < |s| then Cut(s, k) else s
  }

  lemma WithoutMeans(s: seq<Record>, key: nat)
    requires Strict(s)
    ensures Strict(Without(s, key))
    ensures forall x {:trigger x in Without(s, key)} :: x in Without(s, key) <==> x in s && x.key != key
  {
    Found(s, Record(key, 0));
    var k := Match(CompareRecord, s, Record(key, 0), 0);
    hide Strict, Match, Cut;
    if k < |s| {
      CutStrict(s, k);
    }
  }

  function With(s: seq<Record>, r: Record): seq<Record>
    requires Strict(s)
  {
    var rest := Without(s, r.key);
    WithoutMeans(s, r.key);
    Inserted(rest, r);
    Splice(rest, InsertPosition(CompareRecord, true, rest, r), r)
  }

  lemma WithMeans(s: seq<Record>, r: Record)
    requires Strict(s)
    ensures Strict(With(s, r))
    ensures forall x {:trigger x in With(s, r)} :: x in With(s, r) <==> (x in s && x.key != r.key) || x == r
  {
    WithoutMeans(s, r.key);
    Inserted(Without(s, r.key), r);
  }

  // ---- the slots ----------------------------------------------------------------

  // A record lies in the slot its key leads to.
  ghost predicate BucketOk(slotOf: nat -> nat, i: nat, b: Bucket) {
    && (b.Chain? ==> b.records != [] && Strict(b.records))
    && (forall r :: r in Records(b) ==> slotOf(r.key) == i && r.value != 0)
  }

  ghost predicate InSlot(slotOf: nat -> nat, s: seq<Bucket>, key: nat, value: nat) {
    slotOf(key) < |s| && Record(key, value) in Records(s[slotOf(key)])
  }

  // The slots hold exactly the records of the map.
  ghost predicate Represents(slotOf: nat -> nat, s: seq<Bucket>, m: map<nat, nat>) {
    && (forall i {:trigger s[i]} :: 0 <= i < |s| ==> BucketOk(slotOf, i, s[i]))
    && (forall key, value {:trigger InSlot(slotOf, s, key, value)} :: InSlot(slotOf, s, key, value) <==>
        key in m && m[key] == value)
  }

  ghost function Active(s: seq<Bucket>): set<nat> {
    set i | 0 <= i < |s| && s[i].Chain?
  }

  // Changing one key's record in the key's own slot.
  lemma ChangeSlot(slotOf: nat -> nat, s: seq<Bucket>, m: map<nat, nat>, i: nat, b: Bucket, key: nat, m': map<nat, nat>)
    requires Represents(slotOf, s, m) && i == slotOf(key) < |s| && BucketOk(slotOf, i, b)
    requires forall r: Record :: r.key != key ==> (r in Records(b) <==> r in Records(s[i]))
    requires forall k :: k != key ==> (k in m' <==> k in m) && (k in m ==> m'[k] == m[k])
    requires forall value :: Record(key, value) in Records(b) <==> key in m' && m'[key] == value
    ensures Represents(slotOf, s[i := b], m')
  {
    hide BucketOk, Records;
    var t := s[i := b];
    forall k, value ensures InSlot(slotOf, t, k, value) <==> k in m' && m'[k] == value {
      if k == key {
      } else {
        assert InSlot(slotOf, s, k, value) <==> k in m && m[k] == value;
        assert Record(k, value).key != key;
      }
    }
  }

  lemma ActiveChange(s: seq<Bucket>, i: nat, b: Bucket)
    requires i < |s|
    ensures |Active(s[i := b])| == |Active(s)| + (if b.Chain? then 1 else 0) - (if s[i].Chain? then 1 else 0)
  {
    if s[i].Chain? == b.Chain? {
      assert Active(s[i := b]) == Active(s);
    } else if b.Chain? {
      assert Active(s[i := b]) == Active(s) + {i};
    } else {
      assert Active(s) == Active(s[i := b]) + {i};
    }
  }

  // ---- the table ----------------------------------------------------------------

  lemma Lookup(slotOf: nat -> nat, s: seq<Bucket>, m: map<nat, nat>, key: nat)
    requires Represents(slotOf, s, m)
    ensures key in m ==> slotOf(key) < |s| && Record(key, m[key]) in Records(s[slotOf(key)])
    ensures slotOf(key) < |s| ==> forall r: Record :: r in Records(s[slotOf(key)]) && r.key == key ==>
            key in m && m[key] == r.value
    ensures slotOf(key) < |s| ==> BucketOk(slotOf, slotOf(key), s[slotOf(key)])
  {
    assert key in m ==> InSlot(slotOf, s, key, m[key]);
    if slotOf(key) < |s| {
      forall r: Record | r in Records(s[slotOf(key)]) && r.key == key ensures key in m && m[key] == r.value {
        assert InSlot(slotOf, s, key, r.value);
      }
    }
  }

  lemma OpenSlot(slotOf: nat -> nat, s: seq<Bucket>, m: map<nat, nat>, r: Record)
    requires Represents(slotOf, s, m) && slotOf(r.key) < |s| && s[slotOf(r.key)].Null? && r.value != 0
    ensures r.key !in m && Represents(slotOf, s[slotOf(r.key) := Chain([r])], m[r.key := r.value])
  {
    Lookup(slotOf, s, m, r.key);
    hide Represents;
    ChangeSlot(slotOf, s, m, slotOf(r.key), Chain([r]), r.key, m[r.key := r.value]);
  }

  // A bucket emptied by a removal is taken away.
  function Shrunk(records: seq<Record>): Bucket {
    if |records| == 0 then Null else Chain(records)
  }

  lemma DeleteInSlot(slotOf: nat -> nat, s: seq<Bucket>, m: map<nat, nat>, key: nat)
    requires Represents(slotOf, s, m) && slotOf(key) < |s|
    ensures var records := Records(s[slotOf(key)]);
            && key in m <==> Match(CompareRecord, records, Record(key, 0), 0) < |records|
    ensures Represents(slotOf, s[slotOf(key) := Shrunk(Without(Records(s[slotOf(key)]), key))], m - {key})
  {
    var i := slotOf(key);
    Lookup(slotOf, s, m, key);
    Found(Records(s[i]), Record(key, 0));
    WithoutMeans(Records(s[i]), key);
    hide Represents, Match, Without;
    ChangeSlot(slotOf, s, m, i, Shrunk(Without(Records(s[i]), key)), key, m - {key});
  }

  lemma OverwriteInSlot(slotOf: nat -> nat, s: seq<Bucket>, m: map<nat, nat>, r: Record)
    requires Represents(slotOf, s, m) && slotOf(r.key) < |s| && r.value != 0
    ensures Strict(Records(s[slotOf(r.key)]))
    ensures var records := Records(s[slotOf(r.key)]);
            && r.key in m <==> Match(CompareRecord, records, Record(r.key, 0), 0) < |records|
    ensures Represents(slotOf, s[slotOf(r.key) := Chain(With(Records(s[slotOf(r.key)]), r))], m[r.key := r.value])
  {
    var i := slotOf(r.key);
    Lookup(slotOf, s, m, r.key);
    Found(Records(s[i]), Record(r.key, 0));
    WithMeans(Records(s[i]), r);
    hide Represents, Match, With;
    assert r in With(Records(s[i]), r);
    ChangeSlot(slotOf, s, m, i, Chain(With(Records(s[i]), r)), r.key, m[r.key := r.value]);
  }

  class Hash {
    const size: nat
    const keyFunc: KeyFunc
    const bucket: array<Bucket>
    var numTotalElem: nat
    var numActiveSlots: nat

    // The map the table stands for.
    ghost var Contents: map<nat, nat>

    predicate InTable(key: nat)
      reads bucket
    {
      size in {8, 12, 16} && keyFunc(size, key) < bucket.Length
    }

    ghost function SlotOf(): nat -> nat {
      key => keyFunc(size, key)
    }

    ghost predicate Valid()
      reads this, bucket
    {
      && bucket.Length == Pow2(size)
      && Represents(SlotOf(), bucket[..], Contents)
      && numTotalElem == |Contents|
      && numActiveSlots == |Active(bucket[..])|
      && (Contents != map[] ==> size in {8, 12, 16})
    }

    constructor (size: nat, keyFunc: KeyFunc)
      ensures this.size == size && this.keyFunc == keyFunc
      ensures Valid() && fresh(bucket) && Contents == map[]
    {
      this.size, this.keyFunc := size, keyFunc;
      bucket := new Bucket[Pow2(size)](_ => Null);
      numTotalElem, numActiveSlots := 0, 0;
      Contents := map[];
      new;
      assert Active(bucket[..]) == {};
    }

    // With the default key function no key is ignored.
    lemma EveryKeyInTable(key: nat)
      requires Valid() && size in {8, 12, 16} && keyFunc == DefaultKey
      ensures InTable(key)
    {
      DefaultKeyInRange(size, key);
    }

    lemma EmptySlot(key: nat)
      requires Valid() && InTable(key) && bucket[keyFunc(size, key)].Null?
      ensures key !in Contents
    {
      Lookup(SlotOf(), bucket[..], Contents, key);
    }

    // Setting a key to 0 deletes it, and a key outside the table is ignored.
    method Set(key: nat, value: nat)
      requires Valid()
      modifies this, bucket
      ensures Valid()
      ensures InTable(key) && value != 0 ==> Contents == old(Contents)[key := value]
      ensures InTable(key) && value == 0 ==> Contents == old(Contents) - {key}
      ensures !InTable(key) ==> Contents == old(Contents)
    {
      hide Valid;
      if !InTable(key) {
        return;
      }
      var index := keyFunc(size, key);
      if bucket[index].Null? && value != 0 {
        Open(index, key, value);
      } else if bucket[index].Chain? {
        if value == 0 {
          DeleteAll(index, key);
        } else {
          Overwrite(index, key, value);
        }
      } else {
        EmptySlot(key);
        assert Contents - {key} == Contents;
      }
    }

    // The removal loop goes round until the search finds nothing.
    method DeleteAll(index: nat, key: nat)
      requires Valid() && InTable(key) && index == keyFunc(size, key)
      modifies this, bucket
      ensures Valid() && Contents == old(Contents) - {key}
    {
      hide Valid;
      var removed := true;
      while removed
        invariant Valid()
        invariant Contents == if removed && key in Contents then old(Contents) else old(Contents) - {key}
        decreases key in Contents, removed
      {
        removed := Delete(index, key);
      }
    }

    // The first record of a slot.
    method Open(index: nat, key: nat, value: nat)
      requires Valid() && InTable(key) && index == keyFunc(size, key) && bucket[index].Null? && value != 0
      modifies this, bucket
      ensures Valid() && Contents == old(Contents)[key := value]
    {
      hide Represents, Active;
      OpenSlot(SlotOf(), bucket[..], Contents, Record(key, value));
      ActiveChange(bucket[..], index, Chain([Record(key, value)]));
      bucket[index] := Chain([Record(key, value)]);
      numActiveSlots := numActiveSlots + 1;
      numTotalElem := numTotalElem + 1;
      Contents := Contents[key := value];
      assert bucket[..] == old(bucket[..])[index := Chain([Record(key, value)])];
    }

    // One turn of the removal loop.
    method Delete(index: nat, key: nat) returns (removed: bool)
      requires Valid() && InTable(key) && index == keyFunc(size, key)
      modifies this, bucket
      ensures Valid() && removed == (key in old(Contents)) && Contents == old(Contents) - {key}
    {
      hide Represents, Active, Match;
      DeleteInSlot(SlotOf(), bucket[..], Contents, key);
      var records := Records(bucket[index]);
      ActiveChange(bucket[..], index, Shrunk(Without(records, key)));
      var k := Match(CompareRecord, records, Record(key, 0), 0);
      removed := k < |records|;
      if removed {
        var rest := Cut(records, k);
        bucket[index] := Chain(rest);
        numTotalElem := numTotalElem - 1;
        if |rest| == 0 {
          numActiveSlots := numActiveSlots - 1;
          bucket[index] := Null;
        }
        Contents := Contents - {key};
        assert bucket[..] == old(bucket[..])[index := Shrunk(rest)];
      }
    }

    method Overwrite(index: nat, key: nat, value: nat)
      requires Valid() && InTable(key) && index == keyFunc(size, key) && bucket[index].Chain? && value != 0
      modifies this, bucket
      ensures Valid() && Contents == old(Contents)[key := value]
    {
      hide Represents, Active, Match, InsertPosition;
      OverwriteInSlot(SlotOf(), bucket[..], Contents, Record(key, value));
      ghost var r := Record(key, value);
      var records := Records(bucket[index]);
      ghost var after := With(records, r);
      ActiveChange(bucket[..], index, Chain(after));
      MatchKeyFrom(records, key, value, 0);
      var k := Match(CompareRecord, records, Record(key, value), 0);
      if k < |records| {
        records := Cut(records, k);
        numTotalElem := numTotalElem - 1;
      }
      Inserted(records, Record(key, value));
      var p := InsertPosition(CompareRecord, true, records, Record(key, value));
      bucket[index] := Chain(Splice(records, p, Record(key, value)));
      numTotalElem := numTotalElem + 1;
      Contents := Contents[key := value];
      assert bucket[..] == old(bucket[..])[index := Chain(after)];
    }

    // Get: a table without an active slot is not searched at all.
    method Get(key: nat, before: nat) returns (found: bool, value: nat)
      requires Valid()
      ensures found == (key in Contents)
      ensures value == if found then Contents[key] else before
    {
      Lookup(SlotOf(), bucket[..], Contents, key);
      hide Represents, Match;
      assert key in Contents ==> keyFunc(size, key) in Active(bucket[..]);
      found, value := false, before;
      if numActiveSlots > 0 && InTable(key) {
        var index := keyFunc(size, key);
        var records := Records(bucket[index]);
        var k := Match(CompareRecord, records, Record(key, 0), 0);
        Found(records, Record(key, 0));
        if k < |records| {
          found, value := true, records[k].value;
        }
      }
    }

    method Length() returns (n: nat)
      requires Valid()
      ensures n == |Contents|
    {
      n := numTotalElem;
    }
  }
}
