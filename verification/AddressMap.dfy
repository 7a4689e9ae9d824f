/** Maps and sets of addresses, keyed by the unique key of each address: `internal/addrs/map.go` and
    `internal/addrs/set.go`.

    A unique key of an absolute address is its text, tagged with the kind of address. Since texts
    determine addresses, the structures behave as plain maps and sets of the addresses themselves.
 */
module AddressMap {
  import opened Addrs
  import opened AddressText
  import opened TargetParsing

  datatype UniqueKey = ModuleKey(text: string) | ResourceKey(text: string) | InstanceKeyText(text: string)

  function UniqueKeyOf(a: Target, isPrint: char -> bool): UniqueKey {
    match a
    case ModuleTarget(m) => ModuleKey(ModuleText(m, isPrint))
    case ResourceTarget(r) => ResourceKey(AbsResourceText(r, isPrint))
    case InstanceTarget(ri) => InstanceKeyText(AbsInstanceText(ri, isPrint))
  }

  /** Equal keys mean equal addresses. */
  lemma UniqueKeyInjective(a: Target, b: Target, isPrint: char -> bool)
    requires isPrint('{') && ValidTarget(a) && ValidTarget(b)
    requires UniqueKeyOf(a, isPrint) == UniqueKeyOf(b, isPrint)
    ensures a == b
  {
    match a {
      case ModuleTarget(m) => ModuleTextInjective(m, b.m, isPrint);
      case ResourceTarget(r) => AbsResourceTextInjective(r, b.r, isPrint);
      case InstanceTarget(ri) => AbsInstanceTextInjective(ri, b.ri, isPrint);
    }
  }

  datatype MapElem<V> = MapElem(key: Target, value: V)

  /** Every element is stored under the unique key of its own, valid address. */
  predicate Consistent<V>(elems: map<UniqueKey, MapElem<V>>, isPrint: char -> bool) {
    forall k | k in elems :: ValidTarget(elems[k].key) && UniqueKeyOf(elems[k].key, isPrint) == k
  }

  /** The plain map that keyed elements stand for. */
  ghost function Plain<V>(elems: map<UniqueKey, MapElem<V>>, isPrint: char -> bool): (m: map<Target, V>)
    requires isPrint('{') && Consistent(elems, isPrint)
    ensures forall k | k in elems :: elems[k].key in m && m[elems[k].key] == elems[k].value
    ensures forall a | a in m ::
            ValidTarget(a) && UniqueKeyOf(a, isPrint) in elems && elems[UniqueKeyOf(a, isPrint)].key == a
  {
    map a | a in (set k | k in elems :: elems[k].key) :: elems[UniqueKeyOf(a, isPrint)].value
  }

  /** A valid address is in the plain map exactly when its key is in the keyed one. */
  lemma KeyedIffPresent<V>(elems: map<UniqueKey, MapElem<V>>, isPrint: char -> bool, a: Target)
    requires isPrint('{') && Consistent(elems, isPrint) && ValidTarget(a)
    ensures var k := UniqueKeyOf(a, isPrint);
            && (k in elems <==> a in Plain(elems, isPrint))
            && (k in elems ==> elems[k].key == a && elems[k].value == Plain(elems, isPrint)[a])
  {
    var k := UniqueKeyOf(a, isPrint);
    if k in elems {
      UniqueKeyInjective(elems[k].key, a, isPrint);
    }
  }

  lemma RemoveSize<K, V>(m: map<K, V>, k: K)
    requires k in m
    ensures |m| == |m - {k}| + 1
  {
    assert (m - {k}).Keys == m.Keys - {k};
  }

  lemma {:induction false} PlainSize<V>(elems: map<UniqueKey, MapElem<V>>, isPrint: char -> bool)
    requires isPrint('{') && Consistent(elems, isPrint)
    ensures |Plain(elems, isPrint)| == |elems|
    decreases |elems|
  {
    if elems == map[] {
      assert Plain(elems, isPrint) == map[];
    } else {
      var k :| k in elems;
      var a := elems[k].key;
      PlainRemove(elems, isPrint, a);
      RemoveSize(elems, k);
      RemoveSize(Plain(elems, isPrint), a);
      PlainSize(elems - {k}, isPrint);
    }
  }

  /** Taking over an element of a consistent structure keeps consistency. */
  lemma CopyKeepsConsistent<V>(
      elems: map<UniqueKey, MapElem<V>>, source: map<UniqueKey, MapElem<V>>, k: UniqueKey, isPrint: char -> bool)
    requires Consistent(elems, isPrint) && Consistent(source, isPrint) && k in source
    ensures Consistent(elems[k := source[k]], isPrint)
  {
    var after := elems[k := source[k]];
    forall j | j in after ensures ValidTarget(after[j].key) && UniqueKeyOf(after[j].key, isPrint) == j {
    }
  }

  /** Forgetting the values leaves the set of addresses as it was. */
  lemma ForgetValues<V>(elems: map<UniqueKey, MapElem<V>>, keys: map<UniqueKey, MapElem<()>>, isPrint: char -> bool)
    requires isPrint('{') && Consistent(elems, isPrint) && keys.Keys == elems.Keys
    requires forall k | k in keys :: keys[k].key == elems[k].key
    ensures Consistent(keys, isPrint) && Plain(keys, isPrint).Keys == Plain(elems, isPrint).Keys
  {
    forall a | ValidTarget(a) ensures a in Plain(keys, isPrint) <==> a in Plain(elems, isPrint) {
      KeyedIffPresent(elems, isPrint, a);
      KeyedIffPresent(keys, isPrint, a);
    }
  }

  /** Two structures hold the same value, or none, under every valid address. */
  lemma PutAt<V>(elems: map<UniqueKey, MapElem<V>>, isPrint: char -> bool, a: Target, v: V, b: Target)
    requires isPrint('{') && Consistent(elems, isPrint) && ValidTarget(a) && ValidTarget(b)
    requires Consistent(elems[UniqueKeyOf(a, isPrint) := MapElem(a, v)], isPrint)
    ensures var after := Plain(elems[UniqueKeyOf(a, isPrint) := MapElem(a, v)], isPrint);
            && (b in after <==> b == a || b in Plain(elems, isPrint))
            && (b in after ==> after[b] == if b == a then v else Plain(elems, isPrint)[b])
  {
    KeyedIffPresent(elems, isPrint, b);
    KeyedIffPresent(elems[UniqueKeyOf(a, isPrint) := MapElem(a, v)], isPrint, b);
    if UniqueKeyOf(b, isPrint) == UniqueKeyOf(a, isPrint) {
      UniqueKeyInjective(a, b, isPrint);
    }
  }

  lemma PlainPut<V>(elems: map<UniqueKey, MapElem<V>>, isPrint: char -> bool, a: Target, v: V)
    requires isPrint('{') && Consistent(elems, isPrint) && ValidTarget(a)
    ensures var after := elems[UniqueKeyOf(a, isPrint) := MapElem(a, v)];
            Consistent(after, isPrint) && Plain(after, isPrint) == Plain(elems, isPrint)[a := v]
  {
    var after := Plain(elems[UniqueKeyOf(a, isPrint) := MapElem(a, v)], isPrint);
    var expected := Plain(elems, isPrint)[a := v];
    forall b | b in after || b in expected
      ensures b in after && b in expected && after[b] == expected[b]
    {
      PutAt(elems, isPrint, a, v, b);
    }
  }

  lemma RemoveAt<V>(elems: map<UniqueKey, MapElem<V>>, isPrint: char -> bool, a: Target, b: Target)
    requires isPrint('{') && Consistent(elems, isPrint) && ValidTarget(a) && ValidTarget(b)
    requires Consistent(elems - {UniqueKeyOf(a, isPrint)}, isPrint)
    ensures var after := Plain(elems - {UniqueKeyOf(a, isPrint)}, isPrint);
            && (b in after <==> b != a && b in Plain(elems, isPrint))
            && (b in after ==> after[b] == Plain(elems, isPrint)[b])
  {
    KeyedIffPresent(elems, isPrint, b);
    KeyedIffPresent(elems - {UniqueKeyOf(a, isPrint)}, isPrint, b);
    if UniqueKeyOf(b, isPrint) == UniqueKeyOf(a, isPrint) {
      UniqueKeyInjective(a, b, isPrint);
    }
  }

  lemma PlainRemove<V>(elems: map<UniqueKey, MapElem<V>>, isPrint: char -> bool, a: Target)
    requires isPrint('{') && Consistent(elems, isPrint) && ValidTarget(a)
    ensures var after := elems - {UniqueKeyOf(a, isPrint)};
            Consistent(after, isPrint) && Plain(after, isPrint) == Plain(elems, isPrint) - {a}
  {
    var after := Plain(elems - {UniqueKeyOf(a, isPrint)}, isPrint);
    var expected := Plain(elems, isPrint) - {a};
    forall b | b in after || b in expected
      ensures b in after && b in expected && after[b] == expected[b]
    {
      RemoveAt(elems, isPrint, a, b);
    }
  }

  /** A mutable mapping whose keys are addresses. */
  class AddrMap<V(==)> {
    var elems: map<UniqueKey, MapElem<V>>
    const isPrint: char -> bool

    ghost predicate Valid()
      reads this
    {
      isPrint('{') && Consistent(elems, isPrint)
    }

    /** The plain map from addresses to values that this structure stands for. */
    ghost function Contents(): map<Target, V>
      requires Valid()
      reads this
    {
      Plain(elems, isPrint)
    }

    constructor (isPrint: char -> bool)
      requires isPrint('{')
      ensures Valid() && Contents() == map[]
    {
      this.isPrint := isPrint;
      elems := map[];
    }

    method Put(key: Target, value: V)
      requires Valid() && ValidTarget(key)
      modifies this
      ensures Valid() && Contents() == old(Contents())[key := value]
    {
      PlainPut(elems, isPrint, key, value);
      elems := elems[UniqueKeyOf(key, isPrint) := MapElem(key, value)];
    }

    method Remove(key: Target)
      requires Valid() && ValidTarget(key)
      modifies this
      ensures Valid() && Contents() == old(Contents()) - {key}
    {
      PlainRemove(elems, isPrint, key);
      elems := elems - {UniqueKeyOf(key, isPrint)};
    }

    method GetOk(key: Target) returns (r: Option<V>)
      requires Valid() && ValidTarget(key)
      ensures r == if key in Contents() then Some(Contents()[key]) else None
    {
      KeyedIffPresent(elems, isPrint, key);
      var realKey := UniqueKeyOf(key, isPrint);
      if realKey in elems {
        return Some(elems[realKey].value);
      }
      return None;
    }

    method Has(key: Target) returns (r: bool)
      requires Valid() && ValidTarget(key)
      ensures r == (key in Contents())
    {
      KeyedIffPresent(elems, isPrint, key);
      return UniqueKeyOf(key, isPrint) in elems;
    }

    method Len() returns (n: nat)
      requires Valid()
      ensures n == |Contents()|
    {
      PlainSize(elems, isPrint);
      return |elems|;
    }

    method Keys() returns (ret: AddrSet)
      requires Valid()
      ensures fresh(ret) && ret.Valid() && ret.Contents() == Contents().Keys
    {
      var keys: map<UniqueKey, MapElem<()>> := map[];
      var pending := elems.Keys;
      while pending != {}
        invariant pending <= elems.Keys && keys.Keys == elems.Keys - pending
        invariant forall k | k in keys :: keys[k].key == elems[k].key
        decreases pending
      {
        var realKey :| realKey in pending;
        keys := keys[realKey := MapElem(elems[realKey].key, ())];
        pending := pending - {realKey};
      }
      ForgetValues(elems, keys, isPrint);
      ret := new AddrSet(isPrint);
      ret.elems := keys;
    }
  }

  /** A mutable set of addresses: a mapping with nothing but keys. */
  class AddrSet {
    var elems: map<UniqueKey, MapElem<()>>
    const isPrint: char -> bool

    ghost predicate Valid()
      reads this
    {
      isPrint('{') && Consistent(elems, isPrint)
    }

    ghost function Contents(): set<Target>
      requires Valid()
      reads this
    {
      Plain(elems, isPrint).Keys
    }

    constructor (isPrint: char -> bool)
      requires isPrint('{')
      ensures Valid() && Contents() == {} && elems == map[] && this.isPrint == isPrint
    {
      this.isPrint := isPrint;
      elems := map[];
    }

    method Add(addr: Target)
      requires Valid() && ValidTarget(addr)
      modifies this
      ensures Valid() && Contents() == old(Contents()) + {addr}
    {
      PlainPut(elems, isPrint, addr, ());
      elems := elems[UniqueKeyOf(addr, isPrint) := MapElem(addr, ())];
    }

    method Remove(addr: Target)
      requires Valid() && ValidTarget(addr)
      modifies this
      ensures Valid() && Contents() == old(Contents()) - {addr}
    {
      PlainRemove(elems, isPrint, addr);
      elems := elems - {UniqueKeyOf(addr, isPrint)};
    }

    method Has(addr: Target) returns (r: bool)
      requires Valid() && ValidTarget(addr)
      ensures r == (addr in Contents())
    {
      KeyedIffPresent(elems, isPrint, addr);
      return UniqueKeyOf(addr, isPrint) in elems;
    }

    method Union(other: AddrSet) returns (ret: AddrSet)
      requires Valid() && other.Valid() && other.isPrint == isPrint
      ensures fresh(ret) && ret.Valid() && ret.Contents() == Contents() + other.Contents()
    {
      ret := new AddrSet(isPrint);
      ret.CopyFrom(this, elems.Keys);
      ret.CopyFrom(other, other.elems.Keys);
      forall a | ValidTarget(a) ensures a in ret.Contents() <==> a in Contents() + other.Contents() {
        KeyedIffPresent(ret.elems, isPrint, a);
        KeyedIffPresent(elems, isPrint, a);
        KeyedIffPresent(other.elems, isPrint, a);
      }
    }

    method Intersection(other: AddrSet) returns (ret: AddrSet)
      requires Valid() && other.Valid() && other.isPrint == isPrint
      ensures fresh(ret) && ret.Valid() && ret.Contents() == Contents() * other.Contents()
    {
      ret := new AddrSet(isPrint);
      ret.CopyFrom(this, elems.Keys * other.elems.Keys);
      ret.CopyFrom(other, elems.Keys * other.elems.Keys);
      forall a | ValidTarget(a) ensures a in ret.Contents() <==> a in Contents() * other.Contents() {
        KeyedIffPresent(ret.elems, isPrint, a);
        KeyedIffPresent(elems, isPrint, a);
        KeyedIffPresent(other.elems, isPrint, a);
      }
    }

    /** The loop both operations run: copies the elements of `source` stored under `keys`. */
    method CopyFrom(source: AddrSet, keys: set<UniqueKey>)
      requires Valid() && source.Valid() && source.isPrint == isPrint && source != this
      requires keys <= source.elems.Keys
      modifies this
      ensures Valid() && elems.Keys == old(elems.Keys) + keys
    {
      var pending := keys;
      while pending != {}
        invariant pending <= keys
        invariant Valid() && source.elems == old(source.elems)
        invariant elems.Keys == old(elems.Keys) + (keys - pending)
        decreases pending
      {
        var k :| k in pending;
        CopyKeepsConsistent(elems, source.elems, k, isPrint);
        elems := elems[k := source.elems[k]];
        pending := pending - {k};
      }
    }
  }
}
