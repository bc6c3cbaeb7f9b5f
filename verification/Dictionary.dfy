// The string dictionary of dictionary.c: a slot array with cached hashes that grows by doubling.
module Dictionary {
  import opened Common

  // ---------------------------------------------------------------------
  // Hashing
  // ---------------------------------------------------------------------

  /** A plain char converted to unsigned int: bytes from 128 on are sign-extended. */
  function CharWord(c: char): bv32 {
    var b := c as int % 256;
    if b < 128 then b as bv32 else 0xffffff00 | (b as bv32)
  }

  /** The low byte is the character, and the others repeat its sign. */
  lemma {:induction false} CharWordIs(c: char)
    requires c as int < 256
    ensures CharWord(c) & 0xff == c as int as bv32
    ensures CharWord(c) >> 8 == if c as int <= 127 then 0 else 0xffffff
  {}

  function Mix(h: bv32, c: char): bv32 {
    var h1 := h + CharWord(c);
    var h2 := h1 + (h1 << 10);
    h2 ^ (h2 >> 6)
  }

  function MixAll(s: string): bv32 {
    if s == [] then 0 else Mix(MixAll(s[..|s| - 1]), s[|s| - 1])
  }

  function Finish(h: bv32): bv32 {
    var h1 := h + (h << 3);
    var h2 := h1 ^ (h1 >> 11);
    h2 + (h2 << 15)
  }

  function Hash(s: string): bv32 { Finish(MixAll(s)) }

  method ComputeHash(key: string) returns (hash: bv32)
    ensures hash == Hash(key)
  {
    hash := 0;
    var i := 0;
    while i < |key|
      invariant 0 <= i <= |key| && hash == MixAll(key[..i])
    {
      hash := Mix(hash, key[i]);
      assert key[..i + 1][..i] == key[..i];
      i := i + 1;
    }
    assert key[..i] == key;
    hash := Finish(hash);
  }

  /** A hash value as 32-bit arithmetic gives it: of one byte from above 127, which counts as negative. */
  lemma {:induction false} SampleHash()
    ensures Hash("\U{e9}") == 0x409848ff
  {
    assert "\U{e9}"[..0] == "";
    assert CharWord('\U{e9}') == 0xffffffe9;
    assert MixAll("\U{e9}") == Mix(MixAll(""), '\U{e9}') == 0xfc005d66;
  }

  // ---------------------------------------------------------------------
  // Slots, and the map they stand for
  // ---------------------------------------------------------------------

  datatype Slot = Vacant | Entry(key: string, val: Option<string>)

  ghost function SlotsOf(keys: seq<Option<string>>, vals: seq<Option<string>>): seq<Slot>
    requires |keys| == |vals|
  {
    seq(|keys|, i requires 0 <= i < |keys| => if keys[i].None? then Vacant else Entry(keys[i].value, vals[i]))
  }

  predicate Has(s: Slot, key: string) { s.Entry? && s.key == key }

  ghost predicate Distinct(slots: seq<Slot>) {
    forall i, j :: 0 <= i < j < |slots| && slots[i].Entry? ==> !Has(slots[j], slots[i].key)
  }

  function Used(slots: seq<Slot>): (n: nat)
    ensures n <= |slots|
  {
    if slots == [] then 0 else Used(slots[..|slots| - 1]) + if slots[|slots| - 1].Entry? then 1 else 0
  }

  ghost function MapOf(slots: seq<Slot>): map<string, Option<string>> {
    if slots == [] then map[]
    else
      var s := slots[|slots| - 1];
      var front := MapOf(slots[..|slots| - 1]);
      if s.Entry? then front[s.key := s.val] else front
  }

  /** The map holds exactly what some slot holds. */
  lemma {:induction false} MapOfSlots(slots: seq<Slot>, key: string)
    requires Distinct(slots)
    ensures key in MapOf(slots) <==> exists i :: 0 <= i < |slots| && Has(slots[i], key)
    ensures forall i :: 0 <= i < |slots| && Has(slots[i], key) ==> MapOf(slots)[key] == slots[i].val
    decreases |slots|
  {
    if slots != [] {
      var n := |slots| - 1;
      MapOfSlots(slots[..n], key);
      if key in MapOf(slots[..n]) {
        var i :| 0 <= i < n && Has(slots[..n][i], key);
        assert Has(slots[i], key);
      }
      assert forall i :: 0 <= i < n && Has(slots[i], key) ==> Has(slots[..n][i], key);
    }
  }

  /** Writing an entry where its key was, or into a vacant slot when it was nowhere, is a map update. */
  lemma {:induction false} MapOfUpdate(slots: seq<Slot>, i: nat, key: string, val: Option<string>)
    requires Distinct(slots) && i < |slots|
    requires Has(slots[i], key) || (slots[i].Vacant? && forall j :: 0 <= j < |slots| ==> !Has(slots[j], key))
    ensures Distinct(slots[i := Entry(key, val)])
    ensures MapOf(slots[i := Entry(key, val)]) == MapOf(slots)[key := val]
  {
    var after := slots[i := Entry(key, val)];
    forall k
      ensures k in MapOf(after) <==> k in MapOf(slots)[key := val]
      ensures k in MapOf(after) ==> MapOf(after)[k] == MapOf(slots)[key := val][k]
    {
      MapOfSlots(slots, k);
      MapOfSlots(after, k);
      if k == key {
        assert Has(after[i], k);
      } else {
        assert forall j :: 0 <= j < |slots| ==> Has(after[j], k) == Has(slots[j], k);
        if k in MapOf(slots) {
          var j :| 0 <= j < |slots| && Has(slots[j], k);
          assert after[j] == slots[j] && Has(after[j], k);
        }
      }
    }
  }

  /** Clearing the slot of a key removes it from the map. */
  lemma {:induction false} MapOfClear(slots: seq<Slot>, i: nat, key: string)
    requires Distinct(slots) && i < |slots| && Has(slots[i], key)
    ensures Distinct(slots[i := Vacant])
    ensures MapOf(slots[i := Vacant]) == MapOf(slots) - {key}
  {
    var after := slots[i := Vacant];
    forall k
      ensures k in MapOf(after) <==> k in MapOf(slots) - {key}
      ensures k in MapOf(after) ==> MapOf(after)[k] == (MapOf(slots) - {key})[k]
    {
      MapOfSlots(slots, k);
      MapOfSlots(after, k);
      if k != key {
        assert forall j :: 0 <= j < |slots| ==> Has(after[j], k) == Has(slots[j], k);
        if k in MapOf(slots) {
          var j :| 0 <= j < |slots| && Has(slots[j], k);
          assert after[j] == slots[j] && Has(after[j], k);
        }
      }
    }
  }

  lemma {:induction false} MapOfGrown(slots: seq<Slot>, more: nat)
    requires Distinct(slots)
    ensures Distinct(Grown(slots, more)) && MapOf(Grown(slots, more)) == MapOf(slots)
    ensures Used(Grown(slots, more)) == Used(slots)
    decreases more
  {
    if more > 0 {
      MapOfGrown(slots, more - 1);
      assert Grown(slots, more)[..|slots| + more - 1] == Grown(slots, more - 1);
    } else {
      assert Grown(slots, 0) == slots;
    }
  }

  ghost function Grown(slots: seq<Slot>, more: nat): seq<Slot> {
    slots + seq(more, i requires 0 <= i < more => Vacant)
  }

  lemma {:induction false} UsedUpdate(slots: seq<Slot>, i: nat, s: Slot)
    requires i < |slots|
    ensures Used(slots[i := s]) == Used(slots) + (if s.Entry? then 1 else 0) - (if slots[i].Entry? then 1 else 0)
    decreases |slots|
  {
    var n := |slots| - 1;
    if i < n {
      UsedUpdate(slots[..n], i, s);
      assert slots[i := s][..n] == slots[..n][i := s];
    } else {
      assert slots[i := s][..n] == slots[..n];
    }
  }

  /** All slots are used exactly when none is vacant: after the growth check there is room. */
  lemma {:induction false} FullIffNoVacant(slots: seq<Slot>)
    ensures Used(slots) == |slots| <==> forall i :: 0 <= i < |slots| ==> slots[i].Entry?
  {
    if slots != [] {
      var n := |slots| - 1;
      FullIffNoVacant(slots[..n]);
      assert forall i :: 0 <= i < n ==> slots[i] == slots[..n][i];
    }
  }

  /** Where a new key goes: the first vacant slot. */
  ghost predicate FirstVacant(slots: seq<Slot>, i: nat) {
    i < |slots| && slots[i].Vacant? && forall j :: 0 <= j < i ==> slots[j].Entry?
  }

  // ---------------------------------------------------------------------
  // The dictionary
  // ---------------------------------------------------------------------

  const DICTMINSZ := 128

  class Table {
    var n: nat
    var size: nat
    var val: array<Option<string>>
    var key: array<Option<string>>
    var hash: array<bv32>

    ghost predicate Valid()
      reads this, val, key, hash
    {
      && Shaped()
      && Distinct(Slots()) && n == Used(Slots())
      && forall i :: 0 <= i < size && Slots()[i].Entry? ==> hash[i] == Hash(Slots()[i].key)
    }

    ghost predicate Shaped()
      reads this
    {
      && val != key && hash as object != key && hash as object != val && 0 < size
      && val.Length == size && key.Length == size && hash.Length == size
    }

    ghost function Slots(): (s: seq<Slot>)
      requires key.Length == val.Length
      reads `key, `val, key, val
      ensures |s| == key.Length
      ensures forall i :: 0 <= i < |s| ==> s[i] == if key[i].None? then Vacant else Entry(key[i].value, val[i])
    {
      SlotsOf(key[..], val[..])
    }

    ghost function Contents(): map<string, Option<string>>
      requires key.Length == val.Length
      reads `key, `val, key, val
    {
      MapOf(Slots())
    }

    constructor (wanted: int)
      ensures Valid() && fresh(val) && fresh(key) && fresh(hash)
      ensures Contents() == map[] && n == 0
      ensures size == if wanted < DICTMINSZ then DICTMINSZ else wanted
    {
      var sz := if wanted < DICTMINSZ then DICTMINSZ else wanted;
      size, n := sz, 0;
      val := new Option<string>[sz](i => None);
      key := new Option<string>[sz](i => None);
      hash := new bv32[sz](i => 0);
      new;
      EmptySlots(Slots());
    }

    /** The slot of a key, or size when there is none. */
    method Locate(k: string) returns (i: nat)
      requires Valid()
      ensures i <= size
      ensures i < size ==> Has(Slots()[i], k)
      ensures i == size ==> forall j :: 0 <= j < size ==> !Has(Slots()[j], k)
    {
      var h := ComputeHash(k);
      i := 0;
      while i < size
        invariant i <= size && forall j :: 0 <= j < i ==> !Has(Slots()[j], k)
      {
        if key[i].Some? && h == hash[i] && key[i].value == k { return; }
        i := i + 1;
      }
    }

    /** The value of a key, or the given default. */
    method Get(k: string, default_: Option<string>) returns (r: Option<string>)
      requires Valid()
      ensures r == if k in Contents() then Contents()[k] else default_
    {
      var i := Locate(k);
      MapOfSlots(Slots(), k);
      r := if i < size then val[i] else default_;
    }

    /** Twice the space, with the old contents in front. */
    static method MemDouble<T>(a: array<T>, zero: T) returns (b: array<T>)
      ensures fresh(b) && b.Length == 2 * a.Length
      ensures forall i :: 0 <= i < a.Length ==> b[i] == a[i]
      ensures forall i :: a.Length <= i < b.Length ==> b[i] == zero
    {
      b := new T[2 * a.Length](i => zero);
      forall i | 0 <= i < a.Length { b[i] := a[i]; }
    }

    method Double()
      requires Valid()
      modifies this
      ensures Valid() && fresh(val) && fresh(key) && fresh(hash)
      ensures size == 2 * old(size) && n == old(n)
      ensures Slots() == Grown(old(Slots()), old(size))
      ensures Contents() == old(Contents())
    {
      ghost var before := Slots();
      val := MemDouble(val, None);
      key := MemDouble(key, None);
      hash := MemDouble(hash, 0);
      size := 2 * size;
      assert Slots() == Grown(before, |before|);
      MapOfGrown(before, |before|);
    }

    /** Write the three fields of one slot. */
    method Store(i: nat, k: Option<string>, v: Option<string>, h: bv32)
      requires Shaped() && i < size
      modifies val, key, hash
      ensures Slots() == old(Slots())[i := if k.None? then Vacant else Entry(k.value, v)]
      ensures hash[i] == h && forall j :: 0 <= j < size && j != i ==> hash[j] == old(hash[j])
    {
      key[i] := k;
      val[i] := v;
      hash[i] := h;
    }

    /** Fill a vacant slot. */
    method Insert(k: string, v: Option<string>)
      requires Valid() && n < size && forall j :: 0 <= j < size ==> !Has(Slots()[j], k)
      modifies this`n, val, key, hash
      ensures Valid() && n == old(n) + 1
      ensures exists i: nat :: FirstVacant(old(Slots()), i) && Slots() == old(Slots())[i := Entry(k, v)]
      ensures Contents() == old(Contents())[k := v]
    {
      ghost var before := Slots();
      FullIffNoVacant(before);
      var h := ComputeHash(k);
      var i := 0;
      while i < size && key[i].Some?
        invariant i <= size && forall j :: 0 <= j < i ==> before[j].Entry?
      {
        i := i + 1;
      }
      assert FirstVacant(before, i);
      MapOfUpdate(before, i, k, v);
      UsedUpdate(before, i, Entry(k, v));
      Store(i, Some(k), v, h);
      n := n + 1;
    }

    /** Set a key: its value is replaced, or it is added, growing the table when it is full. */
    method Set(k: Option<string>, v: Option<string>) returns (rc: int)
      requires Valid()
      modifies this, val, key, hash
      ensures Valid() && (val == old(val) || fresh(val)) && (key == old(key) || fresh(key)) && (hash == old(hash) || fresh(hash))
      ensures k.None? ==> rc == -1 && Contents() == old(Contents())
      ensures k.Some? ==> rc == 0 && Contents() == old(Contents())[k.value := v]
    {
      if k.None? { return -1; }
      if n > 0 {
        var i := Locate(k.value);
        if i < size {
          ghost var before := Slots();
          MapOfUpdate(before, i, k.value, v);
          UsedUpdate(before, i, Entry(k.value, v));
          Store(i, key[i], v, hash[i]);
          return 0;
        }
      } else {
        NoneUsed(Slots());
      }
      if n == size { Double(); }
      Insert(k.value, v);
      rc := 0;
    }

    method Unset(k: Option<string>)
      requires Valid()
      modifies this`n, val, key, hash
      ensures Valid()
      ensures Contents() == if k.Some? then old(Contents()) - {k.value} else old(Contents())
      ensures n == if k.Some? && k.value in old(Contents()) then old(n) - 1 else old(n)
    {
      if k.None? { return; }
      var i := Locate(k.value);
      ghost var before := Slots();
      MapOfSlots(before, k.value);
      if i >= size { return; }
      MapOfClear(before, i, k.value);
      UsedUpdate(before, i, Vacant);
      Store(i, None, None, 0);
      n := n - 1;
    }
  }

  lemma {:induction false} EmptySlots(slots: seq<Slot>)
    requires forall i :: 0 <= i < |slots| ==> slots[i].Vacant?
    ensures Distinct(slots) && Used(slots) == 0 && MapOf(slots) == map[]
  {
    if slots != [] {
      EmptySlots(slots[..|slots| - 1]);
    }
  }

  lemma {:induction false} NoneUsed(slots: seq<Slot>)
    requires Used(slots) == 0
    ensures forall i :: 0 <= i < |slots| ==> slots[i].Vacant?
  {
    if slots != [] {
      var n := |slots| - 1;
      NoneUsed(slots[..n]);
      assert forall i :: 0 <= i < n ==> slots[i] == slots[..n][i];
    }
  }
}
