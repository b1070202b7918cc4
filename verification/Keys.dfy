/**
Keys, their data lists and the stores they are looked up in (src/keys.c, src/keysmngr.c). Lists are
sequences of items that may be missing (a removed item leaves a NULL behind); klass ids are numbers
and 0 is the unknown id.
*/
module Keys {
  import opened Flags

  datatype Option<T> = None | Some(value: T)

  const UNKNOWN: nat := 0

  //////////////////////////// lists as maps ////////////////////////////

  datatype Item<T> = Item(id: nat, body: T)

  /** The item a search from the front finds under an id. */
  function Lookup<T>(list: seq<Option<Item<T>>>, id: nat): Option<Item<T>> {
    if list == [] then None
    else if list[0].Some? && list[0].value.id == id then list[0]
    else Lookup(list[1..], id)
  }

  /** Replaces the first item with the same id, or appends. */
  function Put<T>(list: seq<Option<Item<T>>>, item: Item<T>): seq<Option<Item<T>>> {
    if list == [] then [Some(item)]
    else if list[0].Some? && list[0].value.id == item.id then [Some(item)] + list[1..]
    else [list[0]] + Put(list[1..], item)
  }

  predicate UniqueIds<T>(list: seq<Option<Item<T>>>) {
    forall i, j | 0 <= i < j < |list| && list[i].Some? && list[j].Some? :: list[i].value.id != list[j].value.id
  }

  /** The most recently adopted item with an id. */
  function Latest<T>(adopted: seq<Item<T>>, id: nat): Option<Item<T>> {
    if adopted == [] then None
    else if adopted[|adopted| - 1].id == id then Some(adopted[|adopted| - 1])
    else Latest(adopted[..|adopted| - 1], id)
  }

  lemma {:induction false} LookupPut<T>(list: seq<Option<Item<T>>>, item: Item<T>, id: nat)
    ensures Lookup(Put(list, item), id) == if id == item.id then Some(item) else Lookup(list, id)
  {
    if list != [] {
      if list[0].Some? && list[0].value.id == item.id {
        assert ([Some(item)] + list[1..])[1..] == list[1..];
      } else {
        LookupPut(list[1..], item, id);
        assert ([list[0]] + Put(list[1..], item))[1..] == Put(list[1..], item);
      }
    }
  }

  predicate Holds<T>(list: seq<Option<Item<T>>>, id: nat) {
    exists i :: 0 <= i < |list| && list[i].Some? && list[i].value.id == id
  }

  lemma {:induction false} PutKeepsUnique<T>(list: seq<Option<Item<T>>>, item: Item<T>)
    requires UniqueIds(list)
    ensures UniqueIds(Put(list, item))
    ensures forall id :: Holds(Put(list, item), id) ==> id == item.id || Holds(list, id)
  {
    if list == [] {
    } else if list[0].Some? && list[0].value.id == item.id {
      forall id | Holds(Put(list, item), id)
        ensures id == item.id || Holds(list, id)
      {
        var i :| 0 <= i < |Put(list, item)| && Put(list, item)[i].Some? && Put(list, item)[i].value.id == id;
        assert i > 0 ==> list[i] == Put(list, item)[i];
      }
    } else {
      var tail, rest := list[1..], Put(list[1..], item);
      PutKeepsUnique(tail, item);
      PrependKeepsUnique(list[0], tail, rest, item.id);
      assert list == [list[0]] + tail;
    }
  }

  lemma PrependKeepsUnique<T>(first: Option<Item<T>>, tail: seq<Option<Item<T>>>, rest: seq<Option<Item<T>>>, id: nat)
    requires UniqueIds([first] + tail) && UniqueIds(rest)
    requires first.Some? ==> first.value.id != id
    requires forall k :: Holds(rest, k) ==> k == id || Holds(tail, k)
    ensures UniqueIds([first] + rest)
    ensures forall k :: Holds([first] + rest, k) ==> k == id || Holds([first] + tail, k)
  {
    var r, l := [first] + rest, [first] + tail;
    forall j | 0 < j < |r| && first.Some? && r[j].Some?
      ensures first.value.id != r[j].value.id
    {
      assert r[j] == rest[j - 1] && Holds(rest, r[j].value.id);
      if r[j].value.id != id {
        var k :| 0 <= k < |tail| && tail[k].Some? && tail[k].value.id == r[j].value.id;
        assert l[k + 1] == tail[k] && l[0] == first;
      }
    }
    assert forall i, j | 0 < i < j < |r| :: r[i] == rest[i - 1] && r[j] == rest[j - 1];
    forall k | Holds(r, k) && k != id
      ensures Holds(l, k)
    {
      var i :| 0 <= i < |r| && r[i].Some? && r[i].value.id == k;
      if i == 0 {
        assert l[0] == r[0];
      } else {
        assert rest[i - 1] == r[i] && Holds(rest, k);
        var j :| 0 <= j < |tail| && tail[j].Some? && tail[j].value.id == k;
        assert l[j + 1] == tail[j];
      }
    }
  }

  /** Putting replaces the item at the first position that holds its id. */
  lemma {:induction false} PutAt<T>(list: seq<Option<Item<T>>>, pos: nat, item: Item<T>)
    requires pos < |list| && list[pos].Some? && list[pos].value.id == item.id
    requires forall i | 0 <= i < pos :: !(list[i].Some? && list[i].value.id == item.id)
    ensures Lookup(list, item.id) == list[pos] && Put(list, item) == list[pos := Some(item)]
  {
    if pos > 0 {
      PutAt(list[1..], pos - 1, item);
      assert list[pos := Some(item)] == [list[0]] + list[1..][pos - 1 := Some(item)];
    } else {
      assert list[pos := Some(item)] == [Some(item)] + list[1..];
    }
  }

  lemma {:induction false} PutEnd<T>(list: seq<Option<Item<T>>>, item: Item<T>)
    requires forall i | 0 <= i < |list| :: !(list[i].Some? && list[i].value.id == item.id)
    ensures Lookup(list, item.id) == None && Put(list, item) == list + [Some(item)]
  {
    if list != [] {
      PutEnd(list[1..], item);
      assert list == [list[0]] + list[1..];
    }
  }

  lemma {:induction false} LookupIsFirst<T>(list: seq<Option<Item<T>>>, pos: nat, id: nat)
    requires pos <= |list|
    requires forall i | 0 <= i < pos :: !(list[i].Some? && list[i].value.id == id)
    ensures Lookup(list, id) == Lookup(list[pos..], id)
  {
    if pos > 0 {
      LookupIsFirst(list[1..], pos - 1, id);
      assert list[1..][pos - 1..] == list[pos..];
    } else {
      assert list[0..] == list;
    }
  }

  /** The search loop of xmlSecKeyGetData and xmlSecKeysMngrGetDataStore. */
  method Search<T>(list: seq<Option<Item<T>>>, id: nat) returns (found: Option<Item<T>>)
    ensures found == Lookup(list, id)
  {
    var pos := 0;
    while pos < |list|
      invariant 0 <= pos <= |list|
      invariant forall i | 0 <= i < pos :: !(list[i].Some? && list[i].value.id == id)
    {
      if list[pos].Some? && list[pos].value.id == id {
        LookupIsFirst(list, pos, id);
        return list[pos];
      }
      pos := pos + 1;
    }
    LookupIsFirst(list, pos, id);
    found := None;
  }

  /** The replace-or-append loop of xmlSecKeyAdoptData and xmlSecKeysMngrAdoptDataStore. */
  method Adopt<T>(list: seq<Option<Item<T>>>, item: Item<T>) returns (result: seq<Option<Item<T>>>)
    ensures result == Put(list, item)
  {
    var pos := 0;
    while pos < |list|
      invariant 0 <= pos <= |list|
      invariant forall i | 0 <= i < pos :: !(list[i].Some? && list[i].value.id == item.id)
    {
      if list[pos].Some? && list[pos].value.id == item.id {
        PutAt(list, pos, item);
        return list[pos := Some(item)];
      }
      pos := pos + 1;
    }
    PutEnd(list, item);
    result := list + [Some(item)];
  }

  /** A list stands for the map from ids to the items adopted last. */
  ghost predicate Represents<T>(list: seq<Option<Item<T>>>, adopted: seq<Item<T>>) {
    UniqueIds(list) && forall id :: Lookup(list, id) == Latest(adopted, id)
  }

  lemma PutRepresents<T>(list: seq<Option<Item<T>>>, adopted: seq<Item<T>>, item: Item<T>)
    requires Represents(list, adopted)
    ensures Represents(Put(list, item), adopted + [item])
  {
    PutKeepsUnique(list, item);
    var next := adopted + [item];
    assert next[..|next| - 1] == adopted;
    forall id
      ensures Lookup(Put(list, item), id) == Latest(next, id)
    {
      LookupPut(list, item, id);
    }
  }

  /** The items of a list without the gaps. */
  function Present<T>(list: seq<Option<Item<T>>>): seq<Item<T>> {
    if list == [] then []
    else
      var init, last := list[..|list| - 1], list[|list| - 1];
      if last.Some? then Present(init) + [last.value] else Present(init)
  }

  lemma {:induction false} LookupSnoc<T>(list: seq<Option<Item<T>>>, last: Option<Item<T>>, id: nat)
    ensures Lookup(list + [last], id) ==
            if Lookup(list, id).Some? then Lookup(list, id)
            else if last.Some? && last.value.id == id then last else None
  {
    if list == [] {
      assert list + [last] == [last] && [last][1..] == [];
    } else {
      assert (list + [last])[1..] == list[1..] + [last];
      LookupSnoc(list[1..], last, id);
    }
  }

  lemma {:induction false} LookupFinds<T>(list: seq<Option<Item<T>>>, id: nat)
    ensures Lookup(list, id).Some? <==> Holds(list, id)
  {
    if list != [] {
      LookupFinds(list[1..], id);
      if Holds(list[1..], id) {
        var i :| 0 <= i < |list[1..]| && list[1..][i].Some? && list[1..][i].value.id == id;
        assert list[i + 1] == list[1..][i];
      }
      if Holds(list, id) {
        var i :| 0 <= i < |list| && list[i].Some? && list[i].value.id == id;
        assert i > 0 ==> list[1..][i - 1] == list[i];
      }
    }
  }

  /** A list with unique ids stands for its own items. */
  lemma {:induction false} RepresentsItself<T>(list: seq<Option<Item<T>>>)
    requires UniqueIds(list)
    ensures Represents(list, Present(list))
  {
    if list != [] {
      var init, last := list[..|list| - 1], list[|list| - 1];
      assert list == init + [last];
      RepresentsItself(init);
      forall id
        ensures Lookup(list, id) == Latest(Present(list), id)
      {
        LookupSnoc(init, last, id);
        LookupFinds(init, id);
        if last.Some? {
          assert Present(list)[..|Present(init)|] == Present(init);
        }
      }
    }
  }

  //////////////////////////// keys ////////////////////////////

  /** What key data tells about itself: its type, its size in bits, and what it holds. */
  datatype Material = Material(kind: bv32, bits: nat, secret: seq<nat>)

  type KeyData = Item<Material>

  const VALUE_ID: nat := 1

  datatype KeyReq = KeyReq(keyId: nat, keyType: bv32, keyUsage: bv32, keyBitsSize: nat)

  datatype KeyFields = KeyFields(name: Option<string>, value: Option<KeyData>, usage: bv32,
                                 notValidBefore: int, notValidAfter: int, dataList: seq<Option<KeyData>>)

  /** A key is valid when it has a value of a known klass. */
  predicate IsValidKey(k: KeyFields) {
    k.value.Some? && k.value.value.id != UNKNOWN
  }

  /** A key meets a name and requirements: type and usage share a flag with what is asked for, the
      klass is the one asked for, and the size, where known, is not too small. */
  predicate Meets(k: KeyFields, name: Option<string>, req: KeyReq) {
    && IsValidKey(k)
    && (name.Some? ==> k.name == name)
    && (NoFlags(req.keyType) || Share(k.value.value.body.kind, req.keyType))
    && (NoFlags(req.keyUsage) || Share(req.keyUsage, k.usage))
    && (req.keyId != UNKNOWN ==> k.value.value.id == req.keyId)
    && (req.keyBitsSize > 0 ==> k.value.value.body.bits == 0 || k.value.value.body.bits >= req.keyBitsSize)
  }

  /** The size key data reports, which is 0 without a klass to ask. */
  function BitsOf(value: KeyData): nat {
    if value.id == UNKNOWN then 0 else value.body.bits
  }

  /** Key data without a klass meets requirements exactly when they name no klass. */
  method MatchKeyValue(req: KeyReq, value: KeyData) returns (r: int)
    ensures r == 1 || r == 0
    ensures r == 1 <==> && (req.keyId != UNKNOWN ==> value.id == req.keyId)
                        && (req.keyBitsSize > 0 ==> BitsOf(value) == 0 || BitsOf(value) >= req.keyBitsSize)
    ensures value.id == UNKNOWN ==> (r == 1 <==> req.keyId == UNKNOWN)
  {
    if req.keyId != UNKNOWN && !(value.id != UNKNOWN && value.id == req.keyId) {
      return 0;
    }
    if req.keyBitsSize > 0 && BitsOf(value) > 0 && BitsOf(value) < req.keyBitsSize {
      return 0;
    }
    return 1;
  }

  /** 1 for a match, 0 for none, negative for a key without a value. */
  method Match(k: KeyFields, name: Option<string>, req: KeyReq) returns (r: int)
    ensures r == 1 <==> Meets(k, name, req)
    ensures r == 1 || r == 0 || r == -1
    ensures r < 0 <==> k.value.None? || k.value.value.id == UNKNOWN
    ensures r >= 0 && req.keyType != 0 && NoCommonFlag(k.value.value.body.kind, req.keyType) ==> r == 0
    ensures r >= 0 && req.keyUsage != 0 && NoCommonFlag(req.keyUsage, k.usage) ==> r == 0
    ensures r == 1 <==>
            && r >= 0 && (name.Some? ==> k.name == name)
            && (req.keyType == 0 || !NoCommonFlag(k.value.value.body.kind, req.keyType))
            && (req.keyUsage == 0 || !NoCommonFlag(req.keyUsage, k.usage))
            && (req.keyId != UNKNOWN ==> k.value.value.id == req.keyId)
            && (req.keyBitsSize > 0 ==> k.value.value.body.bits == 0 || k.value.value.body.bits >= req.keyBitsSize)
  {
    hide Share, Flag, NoCommonFlag;
    if !IsValidKey(k) {
      return -1;
    }
    ShareIsCommonFlag(k.value.value.body.kind, req.keyType);
    ShareIsCommonFlag(req.keyUsage, k.usage);
    if name.Some? && k.name != name {
      return 0;
    }
    if !NoFlags(req.keyType) && !Share(k.value.value.body.kind, req.keyType) {
      return 0;
    }
    if !NoFlags(req.keyUsage) && !Share(req.keyUsage, k.usage) {
      return 0;
    }
    r := MatchKeyValue(req, k.value.value);
  }

  /** The operations on a key's data, as data, so that whole runs can be spoken about. */
  datatype DataOp = AdoptOp(data: KeyData) | EnsureOp(id: nat) {
    function Klass(): nat {
      match this
      case AdoptOp(data) => data.id
      case EnsureOp(id) => id
    }
  }

  /** What a key holds: its value, and the history its data list stands for. */
  datatype Holding = Holding(value: Option<KeyData>, adopted: seq<KeyData>) {
    function Find(id: nat): Option<KeyData> {
      if id == VALUE_ID then value else Latest(adopted, id)
    }
  }

  function ApplyData(op: DataOp, h: Holding, create: nat -> Option<Material>): Holding {
    match op
    case AdoptOp(data) =>
      if data.id == VALUE_ID then h.(value := Some(data)) else h.(adopted := h.adopted + [data])
    case EnsureOp(id) =>
      if h.Find(id).Some? || create(id).None? then h
      else if id == VALUE_ID then h.(value := Some(Item(id, create(id).value)))
      else h.(adopted := h.adopted + [Item(id, create(id).value)])
  }

  function ApplyAllData(ops: seq<DataOp>, h: Holding, create: nat -> Option<Material>): Holding {
    if ops == [] then h else ApplyData(ops[|ops| - 1], ApplyAllData(ops[..|ops| - 1], h, create), create)
  }

  /** What an operation leaves under its own id, where it finds `was`: an adoption its data, the
      other what was there or is made. */
  function Answer(op: DataOp, was: Option<KeyData>, create: nat -> Option<Material>): Option<KeyData> {
    match op
    case AdoptOp(data) => Some(data)
    case EnsureOp(id) =>
      if was.Some? then was
      else if create(id).Some? then Some(Item(id, create(id).value)) else None
  }

  /** After a run every id finds what the last operation on it left there, and an id no operation
      named finds what it found before. */
  function FoundAfter(ops: seq<DataOp>, h: Holding, create: nat -> Option<Material>, id: nat): Option<KeyData> {
    if ops == [] then h.Find(id)
    else
      var before, op := ops[..|ops| - 1], ops[|ops| - 1];
      var was := FoundAfter(before, h, create, id);
      if op.Klass() == id then Answer(op, was, create) else was
  }

  lemma {:induction false} RunFinds(ops: seq<DataOp>, h: Holding, create: nat -> Option<Material>, id: nat)
    ensures ApplyAllData(ops, h, create).Find(id) == FoundAfter(ops, h, create, id)
  {
    if ops != [] {
      var before, op := ops[..|ops| - 1], ops[|ops| - 1];
      RunFinds(before, h, create, id);
      DataOpIsMapUpdate(op, ApplyAllData(before, h, create), create, id);
    }
  }

  /** One operation changes what its own id finds and nothing else. */
  lemma DataOpIsMapUpdate(op: DataOp, h: Holding, create: nat -> Option<Material>, id: nat)
    ensures ApplyData(op, h, create).Find(id) ==
            if op.Klass() == id then Answer(op, h.Find(id), create) else h.Find(id)
  {
    var after := ApplyData(op, h, create);
    if after.adopted != h.adopted {
      assert after.adopted[..|h.adopted|] == h.adopted;
    }
  }

  lemma RepresentsUnique<T>(list: seq<Option<Item<T>>>, adopted: seq<Item<T>>)
    requires Represents(list, adopted)
    ensures UniqueIds(list)
  {
  }

  class Key {
    var name: Option<string>
    var value: Option<KeyData>
    var usage: bv32
    var notValidBefore: int
    var notValidAfter: int
    var dataList: seq<Option<KeyData>>
    ghost var adopted: seq<KeyData>

    ghost function Fields(): KeyFields
      reads this
    {
      KeyFields(name, value, usage, notValidBefore, notValidAfter, dataList)
    }

    /** The data list stands for what was adopted, and the value klass is never in it. */
    ghost predicate Valid()
      reads this
    {
      Represents(dataList, adopted) && forall i | 0 <= i < |adopted| :: adopted[i].id != VALUE_ID
    }

    constructor ()
      ensures Valid() && Fields() == KeyFields(None, None, 0xFFFFFFFF, 0, 0, []) && adopted == []
    {
      name, value, usage := None, None, 0xFFFFFFFF;
      notValidBefore, notValidAfter := 0, 0;
      dataList, adopted := [], [];
    }

    method GetData(id: nat) returns (found: Option<KeyData>)
      requires Valid() && id != UNKNOWN
      ensures found == if id == VALUE_ID then value else Latest(adopted, id)
    {
      if id == VALUE_ID {
        return value;
      }
      found := Search(dataList, id);
    }

    method AdoptData(data: KeyData)
      requires Valid() && data.id != UNKNOWN
      modifies this`value, this`dataList, this`adopted
      ensures Valid()
      ensures data.id == VALUE_ID ==> value == Some(data) && dataList == old(dataList) && adopted == old(adopted)
      ensures data.id != VALUE_ID ==> value == old(value) && adopted == old(adopted) + [data]
    {
      if data.id == VALUE_ID {
        value := Some(data);
        return;
      }
      PutRepresents(dataList, adopted, data);
      dataList := Adopt(dataList, data);
      adopted := adopted + [data];
    }

    /** Returns the data of a klass, creating and adopting it when there is none; `create` stands for
        the klass constructors. */
    method EnsureData(id: nat, create: nat -> Option<Material>) returns (data: Option<KeyData>)
      requires Valid() && id != UNKNOWN
      modifies this`value, this`dataList, this`adopted
      ensures Valid()
      ensures var was := if id == VALUE_ID then old(value) else Latest(old(adopted), id);
              data == if was.Some? then was else if create(id).Some? then Some(Item(id, create(id).value)) else None
      ensures data.Some? ==> data.value.id == id || id == VALUE_ID
      ensures data == (if id == VALUE_ID then value else Latest(adopted, id))
      ensures Holding(value, adopted) == ApplyData(EnsureOp(id), Holding(old(value), old(adopted)), create)
      ensures id != VALUE_ID ==> value == old(value)
      ensures forall k :: k != id ==> Latest(adopted, k) == Latest(old(adopted), k)
    {
      data := GetData(id);
      if data.Some? {
        LatestHasId(adopted, id);
        return;
      }
      var made := create(id);
      if made.Some? {
        var item := Item(id, made.value);
        ghost var before := adopted;
        AdoptData(item);
        assert (before + [item])[..|before|] == before;
        data := Some(item);
      }
    }

    /** Any run of adoptions and look-ups-or-creations, in terms of what the key holds. */
    method RunData(ops: seq<DataOp>, create: nat -> Option<Material>)
      requires Valid() && forall i | 0 <= i < |ops| :: ops[i].Klass() != UNKNOWN
      modifies this`value, this`dataList, this`adopted
      ensures Valid() && UniqueIds(dataList)
      ensures Holding(value, adopted) == ApplyAllData(ops, Holding(old(value), old(adopted)), create)
    {
      hide Represents;
      var i := 0;
      while i < |ops|
        invariant 0 <= i <= |ops| && Valid()
        invariant Holding(value, adopted) == ApplyAllData(ops[..i], Holding(old(value), old(adopted)), create)
      {
        assert ops[..i + 1][..i] == ops[..i];
        match ops[i] {
          case AdoptOp(data) => AdoptData(data);
          case EnsureOp(id) => var _ := EnsureData(id, create);
        }
        i := i + 1;
      }
      assert ops[..i] == ops;
      RepresentsUnique(dataList, adopted);
    }

    /** Copies every field; `duplicate` stands for the klass methods that copy key data. What the
        copy finds under an id is the copy of what the source finds. */
    method Copy(src: Key, duplicate: KeyData -> Option<KeyData>) returns (ok: bool)
      requires src != this && src.Valid() && Faithful(duplicate)
      modifies this
      ensures ok ==> CopyOf(Fields(), src.Fields(), duplicate)
      ensures ok ==> && name == src.name && usage == src.usage
                     && notValidBefore == src.notValidBefore && notValidAfter == src.notValidAfter
      ensures ok <==> CanCopy(src.Fields(), duplicate)
      ensures ok ==> Valid() && forall id :: Latest(adopted, id) == Copied(Latest(src.adopted, id), duplicate)
    {
      name, value, usage, notValidBefore, notValidAfter, dataList, adopted := None, None, 0, 0, 0, [], [];
      name := src.name;
      if src.value.Some? {
        value := duplicate(src.value.value);
        if value.None? {
          return false;
        }
      }
      var i := 0;
      while i < |src.dataList|
        invariant 0 <= i <= |src.dataList| && |dataList| == i
        invariant name == src.name && unchanged(src)
        invariant value == if src.value.Some? then duplicate(src.value.value) else None
        invariant forall j | 0 <= j < i ::
                    CanCopyItem(src.dataList[j], duplicate) && dataList[j] == Copied(src.dataList[j], duplicate)
      {
        var item := src.dataList[i];
        if item.Some? {
          item := duplicate(item.value);
          if item.None? {
            return false;
          }
        }
        dataList := dataList + [item];
        i := i + 1;
      }
      usage, notValidBefore, notValidAfter := src.usage, src.notValidBefore, src.notValidAfter;
      CopiedList(src.dataList, dataList, duplicate);
      RepresentsItself(dataList);
      adopted := Present(dataList);
      NoValueKlass(adopted, src.adopted, duplicate);
      ok := true;
    }
  }

  lemma {:induction false} LatestHasId<T>(adopted: seq<Item<T>>, id: nat)
    ensures Latest(adopted, id).Some? ==> Latest(adopted, id).value.id == id
  {
    if adopted != [] {
      LatestHasId(adopted[..|adopted| - 1], id);
    }
  }

  function Copied(item: Option<KeyData>, duplicate: KeyData -> Option<KeyData>): Option<KeyData> {
    if item.Some? then duplicate(item.value) else None
  }

  predicate CanCopyItem(item: Option<KeyData>, duplicate: KeyData -> Option<KeyData>) {
    item.Some? ==> duplicate(item.value).Some?
  }

  predicate CanCopy(k: KeyFields, duplicate: KeyData -> Option<KeyData>) {
    CanCopyItem(k.value, duplicate) && forall i | 0 <= i < |k.dataList| :: CanCopyItem(k.dataList[i], duplicate)
  }

  predicate CopyOf(copy: KeyFields, k: KeyFields, duplicate: KeyData -> Option<KeyData>) {
    && copy.name == k.name && copy.usage == k.usage && copy.value == Copied(k.value, duplicate)
    && copy.notValidBefore == k.notValidBefore && copy.notValidAfter == k.notValidAfter
    && |copy.dataList| == |k.dataList|
    && forall i | 0 <= i < |k.dataList| :: copy.dataList[i] == Copied(k.dataList[i], duplicate)
  }

  /** Copying key data keeps its klass, type and size. */
  ghost predicate Faithful(duplicate: KeyData -> Option<KeyData>) {
    forall d :: duplicate(d).Some? ==>
      var c := duplicate(d).value; c.id == d.id && c.body.kind == d.body.kind && c.body.bits == d.body.bits
  }

  /** Copying everything unchanged is faithful, and so is refusing to copy; changing the size is not. */
  lemma FaithfulCopies()
    ensures Faithful((d: KeyData) => Some(d)) && Faithful((d: KeyData) => None)
    ensures !Faithful((d: KeyData) => Some(d.(body := d.body.(bits := d.body.bits + 1))))
  {
    var resize := (d: KeyData) => Some(d.(body := d.body.(bits := d.body.bits + 1)));
    assert resize(Item(2, Material(0, 8, []))).Some?;
  }

  /** Copying a list item by item copies what every id finds. */
  lemma {:induction false} CopiedList(list: seq<Option<KeyData>>, copy: seq<Option<KeyData>>,
                                      duplicate: KeyData -> Option<KeyData>)
    requires Faithful(duplicate) && UniqueIds(list) && |copy| == |list|
    requires forall i | 0 <= i < |list| :: CanCopyItem(list[i], duplicate) && copy[i] == Copied(list[i], duplicate)
    ensures UniqueIds(copy)
    ensures forall id :: Lookup(copy, id) == Copied(Lookup(list, id), duplicate)
  {
    forall i | 0 <= i < |list| && copy[i].Some?
      ensures list[i].Some? && list[i].value.id == copy[i].value.id
    {
      assert duplicate(list[i].value).Some?;
    }
    if list != [] {
      CopiedList(list[1..], copy[1..], duplicate);
    }
  }

  /** A copy of data that is never of the value klass is never of the value klass. */
  lemma NoValueKlass(adopted: seq<KeyData>, was: seq<KeyData>, duplicate: KeyData -> Option<KeyData>)
    requires forall id :: Latest(adopted, id) == Copied(Latest(was, id), duplicate)
    requires forall i | 0 <= i < |was| :: was[i].id != VALUE_ID
    ensures forall i | 0 <= i < |adopted| :: adopted[i].id != VALUE_ID
  {
    LatestAbsent(was, VALUE_ID);
    LatestAbsent(adopted, VALUE_ID);
  }

  lemma {:induction false} LatestAbsent<T>(adopted: seq<Item<T>>, id: nat)
    ensures Latest(adopted, id) == None <==> forall i | 0 <= i < |adopted| :: adopted[i].id != id
  {
    if adopted != [] {
      LatestAbsent(adopted[..|adopted| - 1], id);
    }
  }

  lemma CopyStillMeets(copy: KeyFields, k: KeyFields, duplicate: KeyData -> Option<KeyData>,
                       name: Option<string>, req: KeyReq)
    requires Faithful(duplicate) && CanCopy(k, duplicate) && CopyOf(copy, k, duplicate)
    ensures Meets(copy, name, req) <==> Meets(k, name, req)
  {
    hide Share, NoFlags;
    if k.value.Some? {
      assert duplicate(k.value.value).Some?;
    }
  }

  //////////////////////////// the simple keys store ////////////////////////////

  class SimpleKeysStore {
    var keys: seq<Key?>

    constructor ()
      ensures keys == []
    {
      keys := [];
    }

    method AdoptKey(key: Key)
      modifies this
      ensures keys == old(keys) + [key]
    {
      keys := keys + [key];
    }

    /** A copy of the first adopted key that meets the name and the requirements; the copy meets them
        too. Nothing is returned only if no stored key does, or if the one found cannot be copied. */
    method FindKey(name: Option<string>, req: KeyReq, duplicate: KeyData -> Option<KeyData>) returns (found: Key?)
      requires Faithful(duplicate) && forall i | 0 <= i < |keys| && keys[i] != null :: keys[i].Valid()
      ensures found != null ==> fresh(found) && found.Valid() && Meets(found.Fields(), name, req)
      ensures found != null ==>
                exists i :: && 0 <= i < |keys| && keys[i] != null && CopyOf(found.Fields(), keys[i].Fields(), duplicate)
                            && found.name == keys[i].name && found.usage == keys[i].usage
                            && found.notValidBefore == keys[i].notValidBefore
                            && found.notValidAfter == keys[i].notValidAfter
                            && Meets(keys[i].Fields(), name, req)
                            && forall j | 0 <= j < i :: keys[j] == null || !Meets(keys[j].Fields(), name, req)
      ensures found == null ==>
                forall i | 0 <= i < |keys| && keys[i] != null && Meets(keys[i].Fields(), name, req) ::
                  exists j :: && 0 <= j <= i && keys[j] != null && Meets(keys[j].Fields(), name, req)
                              && !CanCopy(keys[j].Fields(), duplicate)
    {
      hide Meets, CopyOf, CanCopy, Faithful;
      var pos := 0;
      while pos < |keys|
        invariant 0 <= pos <= |keys|
        invariant forall j | 0 <= j < pos :: keys[j] == null || !Meets(keys[j].Fields(), name, req)
      {
        var key := keys[pos];
        if key != null {
          var fields := KeyFields(key.name, key.value, key.usage, key.notValidBefore, key.notValidAfter, key.dataList);
          var r := Match(fields, name, req);
          if r == 1 {
            var copy := new Key();
            var ok := copy.Copy(key, duplicate);
            if ok {
              CopyStillMeets(copy.Fields(), key.Fields(), duplicate, name, req);
              return copy;
            }
            return null;
          }
        }
        pos := pos + 1;
      }
      found := null;
    }
  }

  //////////////////////////// the data stores of a manager ////////////////////////////

  class KeysMngr {
    var storesList: seq<Option<Item<nat>>>
    ghost var adopted: seq<Item<nat>>

    ghost predicate Valid()
      reads this
    {
      Represents(storesList, adopted)
    }

    constructor ()
      ensures Valid() && adopted == []
    {
      storesList, adopted := [], [];
    }

    method AdoptDataStore(store: Item<nat>)
      requires Valid()
      modifies this
      ensures Valid() && adopted == old(adopted) + [store]
    {
      PutRepresents(storesList, adopted, store);
      storesList := Adopt(storesList, store);
      adopted := adopted + [store];
    }

    method GetDataStore(id: nat) returns (found: Option<Item<nat>>)
      requires Valid() && id != UNKNOWN
      ensures found == Latest(adopted, id)
    {
      found := Search(storesList, id);
    }
  }
}
