/** The case-insensitive header store (`HttpHeader`). Every entry is keyed by
    the ASCII-lowercased header name and keeps the name exactly as the caller
    wrote it together with the value. The source keeps the entries in a hash
    map, whose iteration order is unspecified; the model keeps them in
    insertion order, which stands for that order wherever the store is walked
    (the `data` serializer). Inserting a key that is already present changes
    nothing, so the first write under a given name wins. */
module Headers {
  import opened Wrappers
  import opened Text

  /** One stored header: `key` is the lookup identity, `name` and `value` are
      the caller's (the source's `HeaderData`). */
  datatype Entry = Entry(key: string, name: string, value: string)

  datatype HttpHeader = HttpHeader(entries: seq<Entry>)

  /** Every key is the lowercased form of its entry's name, and no key is stored twice. */
  ghost predicate Valid(h: HttpHeader) {
    && (forall i :: 0 <= i < |h.entries| ==> h.entries[i].key == Lower(h.entries[i].name))
    && DistinctKeys(h.entries)
  }

  /** The store of a freshly constructed request or response. */
  function EmptyHeader(): (h: HttpHeader)
    ensures Valid(h) && Size(h) == 0
  {
    HttpHeader([])
  }

  /** The keys stored in a run of entries. */
  function Keys(entries: seq<Entry>): set<string> {
    set i | 0 <= i < |entries| :: entries[i].key
  }

  /** No key is stored twice. */
  predicate DistinctKeys(entries: seq<Entry>) {
    forall i, j :: 0 <= i < j < |entries| ==> entries[i].key != entries[j].key
  }

  /** With no key repeated, there are as many keys as entries. */
  lemma {:induction false} KeysCount(entries: seq<Entry>)
    ensures DistinctKeys(entries) ==> |Keys(entries)| == |entries|
  {
    if |entries| > 0 && DistinctKeys(entries) {
      var init := entries[..|entries| - 1];
      var last := entries[|entries| - 1].key;
      assert DistinctKeys(init);
      KeysCount(init);
      assert Keys(entries) == Keys(init) + {last};
      assert last !in Keys(init);
    }
  }

  /** `size()`: the number of names stored, one per distinct lower-cased name. */
  function Size(h: HttpHeader): (n: nat)
    ensures Valid(h) ==> n == |Keys(h.entries)|
  {
    KeysCount(h.entries);
    |h.entries|
  }

  /** Position of the entry stored under `key`, if any. */
  function Find(entries: seq<Entry>, key: string): (r: Option<nat>)
    ensures r.Some? ==> r.value < |entries| && entries[r.value].key == key
    ensures r.Some? ==> forall j :: 0 <= j < r.value ==> entries[j].key != key
    ensures r.None? ==> forall j :: 0 <= j < |entries| ==> entries[j].key != key
  {
    if |entries| == 0 then None
    else if entries[0].key == key then Some(0)
    else match Find(entries[1..], key)
      case None => None
      case Some(i) => Some(i + 1)
  }

  /** `HttpHeader::contains`: is some entry stored under the lowercased name? */
  function Contains(h: HttpHeader, name: string): (b: bool)
    ensures b <==> exists i :: 0 <= i < |h.entries| && h.entries[i].key == Lower(name)
  {
    Find(h.entries, Lower(name)).Some?
  }

  /** `HttpHeader::get`: the value stored under the lowercased name. */
  function Get(h: HttpHeader, name: string): (r: Option<string>)
    ensures r.Some? ==> exists i :: 0 <= i < |h.entries| && h.entries[i].key == Lower(name) && h.entries[i].value == r.value
    ensures r.None? ==> forall i :: 0 <= i < |h.entries| ==> h.entries[i].key != Lower(name)
  {
    match Find(h.entries, Lower(name))
    case None => None
    case Some(i) => Some(h.entries[i].value)
  }

  /** `HttpHeader::set`: map insertion that never overwrites. A fresh key is
      appended with the caller's name and value; a present key leaves the
      store as it was. */
  function Set(h: HttpHeader, name: string, value: string): (r: HttpHeader)
    ensures Valid(h) ==> Valid(r)
    ensures Contains(h, name) ==> r == h
    ensures !Contains(h, name) ==> r.entries == h.entries + [Entry(Lower(name), name, value)]
  {
    if Contains(h, name) then h
    else HttpHeader(h.entries + [Entry(Lower(name), name, value)])
  }

  /** Assignment to the value of the entry stored under `key` (what
      `headers.last()->second = value` does in the request parser). */
  function UpdateValue(h: HttpHeader, key: string, value: string): (r: HttpHeader)
    ensures |r.entries| == |h.entries|
    ensures forall i :: 0 <= i < |h.entries| ==>
      r.entries[i].key == h.entries[i].key && r.entries[i].name == h.entries[i].name
    ensures forall i :: 0 <= i < |h.entries| && h.entries[i].key != key ==> r.entries[i] == h.entries[i]
    ensures Find(h.entries, key).Some? ==> r.entries[Find(h.entries, key).value].value == value
    ensures Valid(h) ==> Valid(r)
  {
    match Find(h.entries, key)
    case None => h
    case Some(i) => HttpHeader(h.entries[i := h.entries[i].(value := value)])
  }

  /** After the value under a present key is replaced, `get` on any spelling
      of that key yields the new value and every other name is unaffected. */
  lemma UpdateThenGet(h: HttpHeader, n: string, v: string, m: string)
    requires Valid(h) && Contains(h, n)
    ensures Contains(UpdateValue(h, Lower(n), v), m) == Contains(h, m)
    ensures Lower(m) == Lower(n) ==> Get(UpdateValue(h, Lower(n), v), m) == Some(v)
    ensures Lower(m) != Lower(n) ==> Get(UpdateValue(h, Lower(n), v), m) == Get(h, m)
  {
    var r := UpdateValue(h, Lower(n), v);
    var i :| 0 <= i < |h.entries| && h.entries[i].key == Lower(n);
    match Find(h.entries, Lower(n))
    case Some(k) =>
      KeyUnique(h, i, k);
      if Lower(m) == Lower(n) {
        match Find(r.entries, Lower(m))
        case Some(j) => KeyUnique(r, j, k);
      }
  }

  /** In a valid store the entry holding a key is unique. */
  lemma KeyUnique(h: HttpHeader, i: nat, j: nat)
    requires Valid(h)
    requires i < |h.entries| && j < |h.entries| && h.entries[i].key == h.entries[j].key
    ensures i == j
  {
  }

  /** `contains` and `get` agree: a name is present exactly when `get` has a value. */
  lemma ContainsIffGet(h: HttpHeader, name: string)
    ensures Contains(h, name) <==> Get(h, name).Some?
  {
  }

  /** After `set(n, v)`, every spelling of `n` is found; `get` yields `v` if the
      name was new and the earlier value otherwise (first write wins). */
  lemma SetThenGet(h: HttpHeader, n: string, v: string, m: string)
    requires Valid(h)
    requires Lower(m) == Lower(n)
    ensures Contains(Set(h, n, v), m)
    ensures Get(Set(h, n, v), m) == if Contains(h, n) then Get(h, n) else Some(v)
  {
    var r := Set(h, n, v);
    if !Contains(h, n) {
      var k := |h.entries|;
      assert r.entries[k].key == Lower(m);
      match Find(r.entries, Lower(m))
      case Some(i) => KeyUnique(r, i, k);
    }
  }

  /** `set` under one name leaves every other name's presence and value alone. */
  lemma SetKeepsOthers(h: HttpHeader, n: string, v: string, m: string)
    requires Lower(m) != Lower(n)
    ensures Contains(Set(h, n, v), m) == Contains(h, m)
    ensures Get(Set(h, n, v), m) == Get(h, m)
  {
    var r := Set(h, n, v);
    if !Contains(h, n) {
      match Find(h.entries, Lower(m))
      case None =>
      case Some(i) =>
        assert r.entries[..|h.entries|] == h.entries;
    }
  }

  /** `size()` grows by one exactly when `set` is given a new name. */
  lemma SetSize(h: HttpHeader, n: string, v: string)
    ensures Size(Set(h, n, v)) == Size(h) + (if Contains(h, n) then 0 else 1)
  {
  }

  /** The stored key is the lowercased name, while the stored name keeps the
      caller's spelling. */
  lemma SetStoresCallerCase(h: HttpHeader, n: string, v: string)
    requires !Contains(h, n)
    ensures var e := Set(h, n, v).entries[Size(h)]; e.key == Lower(n) && e.name == n && e.value == v
  {
  }

  /** The store reached by a series of `set` calls from empty. */
  function SetAll(h: HttpHeader, pairs: seq<(string, string)>): (r: HttpHeader)
    ensures Valid(h) ==> Valid(r)
    decreases |pairs|
  {
    if |pairs| == 0 then h
    else SetAll(Set(h, pairs[0].0, pairs[0].1), pairs[1..])
  }

  /** A name that no `set` used under any spelling is absent: `contains` is
      false and `get` has no value. */
  lemma {:induction false} NeverSetIsAbsent(h: HttpHeader, pairs: seq<(string, string)>, m: string)
    requires !Contains(h, m)
    requires forall k :: 0 <= k < |pairs| ==> Lower(pairs[k].0) != Lower(m)
    ensures !Contains(SetAll(h, pairs), m)
    ensures Get(SetAll(h, pairs), m).None?
    decreases |pairs|
  {
    if |pairs| > 0 {
      SetKeepsOthers(h, pairs[0].0, pairs[0].1, m);
      NeverSetIsAbsent(Set(h, pairs[0].0, pairs[0].1), pairs[1..], m);
    }
  }
}
