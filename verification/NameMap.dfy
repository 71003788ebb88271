/** The hash-chained index of names, and the hash table built on it. */
module NameMaps {
  import opened Wrappers
  import opened Bytes

  type Name = seq<byte>

  const HASH_MAX: nat := 64

  /** No index; the largest number of the index type. */
  const NIL: nat := 0xFFFF_FFFF_FFFF_FFFF

  // The hash code: length plus the first and the last five bytes.

  function Ends(name: Name, n: nat): nat
    requires n <= |name|
  {
    if n == 0 then 0 else Ends(name, n - 1) + name[n - 1] + name[|name| - n]
  }

  function Hash(name: Name): (h: nat)
    ensures h < HASH_MAX
  {
    (|name| + Ends(name, Min(|name|, 5))) % HASH_MAX
  }

  function Sum(s: seq<byte>): nat {
    if s == [] then 0 else Sum(s[..|s| - 1]) + s[|s| - 1]
  }

  lemma {:induction false} SumFirst(s: seq<byte>)
    requires s != []
    ensures Sum(s) == s[0] + Sum(s[1..])
    decreases |s|
  {
    if |s| > 1 {
      SumFirst(s[..|s| - 1]);
      assert s[..|s| - 1][1..] == s[1..][..|s| - 2];
    }
  }

  lemma {:induction false} EndsAre(name: Name, n: nat)
    requires n <= |name|
    ensures Ends(name, n) == Sum(name[..n]) + Sum(name[|name| - n..])
    decreases n
  {
    if n > 0 {
      EndsAre(name, n - 1);
      assert name[..n][..n - 1] == name[..n - 1];
      var tail := name[|name| - n..];
      SumFirst(tail);
      assert tail[1..] == name[|name| - (n - 1)..];
    }
  }

  /** The hash code, modulo 64, is the length plus the sum of the first and of the last five bytes;
      in a name of up to five bytes every byte counts twice. */
  lemma HashIs(name: Name)
    ensures |name| > 5 ==> Hash(name) == (|name| + Sum(name[..5]) + Sum(name[|name| - 5..])) % 64
    ensures |name| <= 5 ==> Hash(name) == (|name| + 2 * Sum(name)) % 64
  {
    EndsAre(name, Min(|name|, 5));
    assert |name| <= 5 ==> name[..|name|] == name && name[0..] == name;
  }

  method ComputeHash(name: Name) returns (h: nat)
    ensures h == Hash(name)
  {
    h := |name|;
    var limit := |name|;
    if limit > 5 {
      limit := 5;
    }
    var i := 0;
    while i < limit
      invariant 0 <= i <= limit && h == |name| + Ends(name, i)
    {
      h := h + name[i];
      h := h + name[|name| - i - 1];
      i := i + 1;
    }
    h := h % HASH_MAX;
  }

  /** A name with its hash code. */
  datatype Query = Query(text: Name, code: nat)

  predicate Honest(q: Query) {
    q.code == Hash(q.text)
  }

  method MakeQuery(text: Name) returns (q: Query)
    ensures q.text == text && Honest(q)
  {
    var code := ComputeHash(text);
    q := Query(text, code);
  }

  /** The query for the rest of a name. */
  method TailQuery(q: Query, skip: nat) returns (r: Query)
    ensures Honest(r) && r.text == if skip <= |q.text| then q.text[skip..] else []
  {
    r := MakeQuery(if skip <= |q.text| then q.text[skip..] else []);
  }

  // Linear search.

  /** The highest index of a name, or NIL. */
  ghost predicate IsLastIndex(names: seq<Name>, name: Name, i: nat) {
    if i == NIL then name !in names
    else i < |names| && names[i] == name && forall j :: i < j < |names| ==> names[j] != name
  }

  function Codes(names: seq<Name>): (r: seq<nat>)
    ensures |r| == |names|
  {
    seq(|names|, i requires 0 <= i < |names| => Hash(names[i]))
  }

  /** The highest index below k of a hash code. */
  function Latest(codes: seq<nat>, h: nat, k: nat): (i: nat)
    requires k <= |codes| < NIL
    ensures i == NIL || (i < k && codes[i] == h)
  {
    if k == 0 then NIL else if codes[k - 1] == h then k - 1 else Latest(codes, h, k - 1)
  }

  lemma {:induction false} LatestOfMore(codes: seq<nat>, more: seq<nat>, h: nat, k: nat)
    requires k <= |codes| <= |more| < NIL && more[..|codes|] == codes
    ensures Latest(more, h, k) == Latest(codes, h, k)
    decreases k
  {
    if k > 0 {
      assert more[k - 1] == more[..|codes|][k - 1];
      LatestOfMore(codes, more, h, k - 1);
    }
  }

  /** A chain leaves out no name with its hash code. */
  lemma {:induction false} LatestSkipsOthers(codes: seq<nat>, h: nat, k: nat)
    requires k <= |codes| < NIL
    ensures var i := Latest(codes, h, k);
      forall j :: (if i == NIL then 0 else i + 1) <= j < k ==> codes[j] != h
    decreases k
  {
    if k > 0 && codes[k - 1] != h { LatestSkipsOthers(codes, h, k - 1); }
  }

  /** Every chain goes down through all indexes with its hash code, and no others. */
  ghost predicate Chained(codes: seq<nat>, first: seq<nat>, next: seq<nat>) {
    && |first| == HASH_MAX && |next| == |codes| < NIL
    && (forall h {:trigger first[h]} :: 0 <= h < HASH_MAX ==> first[h] == Latest(codes, h, |codes|))
    && (forall i {:trigger next[i]} :: 0 <= i < |codes| ==> next[i] == Latest(codes, codes[i], i))
  }

  lemma ChainedOn(codes: seq<nat>, first: seq<nat>, next: seq<nat>, h: nat)
    requires Chained(codes, first, next) && h < HASH_MAX && |codes| + 1 < NIL
    ensures Chained(codes + [h], first[h := |codes|], next + [first[h]])
  {
    var more := codes + [h];
    forall g | 0 <= g < HASH_MAX
      ensures first[h := |codes|][g] == Latest(more, g, |more|)
    {
      LatestOfMore(codes, more, g, |codes|);
    }
    forall i | 0 <= i < |more|
      ensures (next + [first[h]])[i] == Latest(more, more[i], i)
    {
      LatestOfMore(codes, more, more[i], i);
    }
  }

  class NameMap {
    var names: seq<Name>
    const hashFirst: array<nat>
    var hashNext: seq<nat>

    ghost predicate Valid()
      reads this, hashFirst
    {
      Chained(Codes(names), hashFirst[..], hashNext)
    }

    constructor ()
      ensures Valid() && fresh(hashFirst) && names == []
    {
      names, hashNext := [], [];
      hashFirst := new nat[HASH_MAX](_ => NIL);
    }

    /** Follows the chain of a hash code to the name; the indexes on it decrease. */
    method Follow(text: Name, code: nat, ghost codes: seq<nat>) returns (i: nat)
      requires |codes| == |names| && Chained(codes, hashFirst[..], hashNext) && code < HASH_MAX
      ensures i == NIL || (i < |names| && names[i] == text)
      ensures forall j :: (if i == NIL then 0 else i + 1) <= j < |names| ==> codes[j] != code || names[j] != text
    {
      i := hashFirst[code];
      assert i == hashFirst[..][code];
      ghost var k := |names|;
      LatestSkipsOthers(codes, code, k);
      while i != NIL && names[i] != text
        invariant 0 <= k <= |names| && i == Latest(codes, code, k)
        invariant forall j :: (if i == NIL then 0 else i + 1) <= j < |names| ==> codes[j] != code || names[j] != text
        decreases k
      {
        k := i;
        LatestSkipsOthers(codes, code, k);
        i := hashNext[i];
      }
    }

    /** Looks a name up along its chain: finds what a linear search from the end would find. */
    method GetIndexByName(q: Query) returns (i: nat)
      requires Valid() && Honest(q)
      ensures IsLastIndex(names, q.text, i)
    {
      i := Follow(q.text, q.code, Codes(names));
      forall j | (if i == NIL then 0 else i + 1) <= j < |names|
        ensures names[j] != q.text
      {
        assert Codes(names)[j] == Hash(names[j]);
      }
    }

    method Add(name: Name) returns (slot: nat)
      requires Valid() && |names| + 1 < NIL
      modifies this, hashFirst
      ensures Valid() && slot == old(|names|) && names == old(names) + [name]
    {
      var h := ComputeHash(name);
      slot := |names|;
      ChainedOn(Codes(names), hashFirst[..], hashNext, h);
      assert Codes(names + [name]) == Codes(names) + [h];
      names := names + [name];
      hashNext := hashNext + [hashFirst[h]];
      hashFirst[h] := slot;
      assert hashFirst[..] == old(hashFirst[..])[h := slot];
    }

    /** Adds a name unless it is there already. */
    method AddMaybe(name: Name) returns (i: nat)
      requires Valid() && |names| + 1 < NIL
      modifies this, hashFirst
      ensures Valid() && names == if name in old(names) then old(names) else old(names) + [name]
      ensures IsLastIndex(names, name, i) && i < |names|
    {
      var q := MakeQuery(name);
      i := GetIndexByName(q);
      if i == NIL {
        i := Add(name);
      }
    }
  }

  // The hash table.

  /** The value in a slot; one that was never set is null. */
  ghost function At<V>(values: seq<Option<V>>, i: nat): Option<V> {
    if i < |values| then values[i] else None
  }

  /** The finite map a table stands for: the last index of a name counts. */
  ghost function Contents<V>(names: seq<Name>, values: seq<Option<V>>): map<Name, Option<V>>
    decreases |names|
  {
    if names == [] then map[]
    else Contents(names[..|names| - 1], values)[names[|names| - 1] := At(values, |names| - 1)]
  }

  lemma LastInPrefix(names: seq<Name>, name: Name, i: nat)
    requires IsLastIndex(names, name, i) && 0 < |names| < NIL && names[|names| - 1] != name
    ensures IsLastIndex(names[..|names| - 1], name, i)
  {
  }

  lemma {:induction false} ContentsAt<V>(names: seq<Name>, values: seq<Option<V>>, name: Name, i: nat)
    requires IsLastIndex(names, name, i) && |names| < NIL
    ensures name in Contents(names, values) <==> i != NIL
    ensures i != NIL ==> Contents(names, values)[name] == At(values, i)
    decreases |names|
  {
    if names != [] {
      var k := |names| - 1;
      if names[k] != name {
        LastInPrefix(names, name, i);
        ContentsAt(names[..k], values, name, i);
      }
    }
  }

  /** Slots beyond the names do not matter. */
  lemma {:induction false} ContentsBelow<V>(names: seq<Name>, values: seq<Option<V>>, others: seq<Option<V>>)
    requires forall j :: 0 <= j < |names| ==> At(values, j) == At(others, j)
    ensures Contents(names, values) == Contents(names, others)
    decreases |names|
  {
    if names != [] { ContentsBelow(names[..|names| - 1], values, others); }
  }

  lemma {:induction false} ContentsSet<V>(names: seq<Name>, values: seq<Option<V>>, others: seq<Option<V>>,
                                          name: Name, i: nat, v: Option<V>)
    requires IsLastIndex(names, name, i) && i < |names| < NIL
    requires forall j :: 0 <= j < |names| ==> At(others, j) == if j == i then v else At(values, j)
    ensures Contents(names, others) == Contents(names, values)[name := v]
    decreases |names|
  {
    var k := |names| - 1;
    if i == k {
      ContentsBelow(names[..k], values, others);
    } else {
      LastInPrefix(names, name, i);
      ContentsSet(names[..k], values, others, name, i, v);
    }
  }

  class HashTable<V> {
    const keys: NameMap
    var values: seq<Option<V>>

    ghost predicate Valid()
      reads this, keys, keys.hashFirst
    {
      keys.Valid() && |values| < NIL
    }

    ghost function Map(): map<Name, Option<V>>
      reads this, keys
    {
      Contents(keys.names, values)
    }

    constructor ()
      ensures Valid() && fresh(keys) && fresh(keys.hashFirst) && keys.names == [] && Map() == map[]
    {
      keys := new NameMap();
      values := [];
    }

    /** A table made from a name map and values, which may be of any length and hold a name
        more than once. */
    constructor Create(keys: NameMap, values: seq<Option<V>>)
      requires keys.Valid() && |values| < NIL
      ensures Valid() && this.keys == keys && this.values == values
    {
      this.keys, this.values := keys, values;
    }

    /** Makes a slot accessible and stores a value in it. */
    method StoreAt(index: nat, value: Option<V>)
      requires index < NIL - 1 && |values| < NIL
      modifies this`values
      ensures |values| < NIL && forall j :: 0 <= j ==> At(values, j) == if j == index then value else At(old(values), j)
    {
      while index >= |values|
        invariant |values| < NIL && forall j :: 0 <= j ==> At(values, j) == At(old(values), j)
        decreases index + 1 - |values|
      {
        values := values + [None];
      }
      values := values[index := value];
    }

    /** Sets a key: the map changes at that key only, and keys keep their indexes. */
    method Set(key: Name, value: Option<V>)
      requires Valid() && |keys.names| + 1 < NIL
      modifies this, keys, keys.hashFirst
      ensures Valid() && Map() == old(Map())[key := value]
      ensures keys.names == if key in old(keys.names) then old(keys.names) else old(keys.names) + [key]
    {
      var index := keys.AddMaybe(key);
      StoreAt(index, value);
      ContentsSet(keys.names, old(values), values, key, index, value);
      if key !in old(keys.names) {
        assert keys.names[..|keys.names| - 1] == old(keys.names);
      }
    }

    method Get(key: Name) returns (r: Option<V>)
      requires Valid()
      ensures r == if key in Map() then Map()[key] else None
    {
      var q := MakeQuery(key);
      var i := keys.GetIndexByName(q);
      ContentsAt(keys.names, values, key, i);
      r := if i < |values| then values[i] else None;
    }

    /** Finds the index of a key that is present; its slot holds the key's value. */
    method GetIndexByKey(q: Query) returns (index: Option<nat>)
      requires Valid() && Honest(q)
      ensures index.Some? <==> q.text in Map()
      ensures index.Some? ==> IsLastIndex(keys.names, q.text, index.value) && Map()[q.text] == At(values, index.value)
    {
      var i := keys.GetIndexByName(q);
      ContentsAt(keys.names, values, q.text, i);
      index := if i != NIL then Some(i) else None;
    }
  }

  /** The finite map a sequence of assignments builds. */
  function Assigned<V>(sets: seq<(Name, Option<V>)>): map<Name, Option<V>> {
    if sets == [] then map[]
    else Assigned(sets[..|sets| - 1])[sets[|sets| - 1].0 := sets[|sets| - 1].1]
  }

  /** After any sequence of sets, a key has the value last set for it, or none. */
  method GetAfterSets<V>(sets: seq<(Name, Option<V>)>, key: Name) returns (r: Option<V>)
    requires |sets| + 1 < NIL
    ensures r == if key in Assigned(sets) then Assigned(sets)[key] else None
  {
    var table := new HashTable<V>();
    var i := 0;
    while i < |sets|
      invariant 0 <= i <= |sets| && fresh(table) && fresh(table.keys) && fresh(table.keys.hashFirst)
      invariant table.Valid() && |table.keys.names| <= i && table.Map() == Assigned(sets[..i])
    {
      table.Set(sets[i].0, sets[i].1);
      assert sets[..i + 1][..i] == sets[..i];
      i := i + 1;
    }
    assert sets[..i] == sets;
    r := table.Get(key);
  }
}
