/**
 * A least-recently-used cache kept as a list in order of use and an index into it, and the two
 * lookups of the sampling thread that go through such caches.
 */
module NameCache {
  import opened Bytes
  import opened FunctionIdentifiers

  // ---------------------------------------------------------------- sequences of distinct elements

  predicate NoDuplicates<T(==)>(s: seq<T>) {
    forall i, j :: 0 <= i < j < |s| ==> s[i] != s[j]
  }

  /** s without the first x. */
  function Without<T(==)>(s: seq<T>, x: T): seq<T> {
    if s == [] then [] else if s[0] == x then s[1..] else [s[0]] + Without(s[1..], x)
  }

  lemma {:induction false} WithoutKeepsOthers<T>(s: seq<T>, x: T)
    ensures forall y :: y in Without(s, x) ==> y in s
    ensures forall y :: y in s && y != x ==> y in Without(s, x)
    ensures |Without(s, x)| == |s| - if x in s then 1 else 0
    decreases |s|
  {
    if s != [] && s[0] != x {
      WithoutKeepsOthers(s[1..], x);
    }
  }

  lemma {:induction false} WithoutIsDistinct<T>(s: seq<T>, x: T)
    requires NoDuplicates(s)
    ensures NoDuplicates(Without(s, x)) && x !in Without(s, x)
    decreases |s|
  {
    if s == [] {
    } else if s[0] == x {
      assert forall i :: 0 <= i < |s[1..]| ==> s[1..][i] == s[i + 1];
    } else {
      WithoutIsDistinct(s[1..], x);
      WithoutKeepsOthers(s[1..], x);
      PrependIsDistinct(s[0], Without(s[1..], x));
    }
  }

  lemma PrependIsDistinct<T>(x: T, s: seq<T>)
    requires NoDuplicates(s) && x !in s
    ensures NoDuplicates([x] + s)
  {
    var t := [x] + s;
    forall i, j | 0 <= i < j < |t| ensures t[i] != t[j] {
      assert t[j] == s[j - 1];
      if i > 0 {
        assert t[i] == s[i - 1];
      }
    }
  }

  lemma {:induction false} WithoutAbsent<T>(s: seq<T>, x: T)
    requires x !in s
    ensures Without(s, x) == s
    decreases |s|
  {
    if s != [] {
      assert s[0] in s;
      WithoutAbsent(s[1..], x);
    }
  }

  function First<T>(s: seq<T>, n: nat): seq<T> {
    if |s| <= n then s else s[..n]
  }

  // ---------------------------------------------------------------- the reference: recency order

  /** The distinct keys of a run of uses, most recently used first. */
  function Recent<K(==)>(uses: seq<K>): seq<K> {
    if uses == [] then []
    else var k := uses[|uses| - 1]; [k] + Without(Recent(uses[..|uses| - 1]), k)
  }

  lemma {:induction false} RecentIsDistinct<K>(uses: seq<K>)
    ensures NoDuplicates(Recent(uses))
    ensures forall k :: k in Recent(uses) <==> k in uses
    decreases |uses|
  {
    if uses != [] {
      var before, k := uses[..|uses| - 1], uses[|uses| - 1];
      RecentIsDistinct(before);
      WithoutKeepsOthers(Recent(before), k);
      WithoutIsDistinct(Recent(before), k);
      PrependIsDistinct(k, Without(Recent(before), k));
      assert uses == before + [k];
    }
  }

  /** The keys a cache of n entries holds after one more use. */
  function Used<K(==)>(keys: seq<K>, k: K, n: nat): seq<K> {
    First([k] + Without(keys, k), n)
  }

  lemma {:induction false} WithoutOfFirst<K>(s: seq<K>, k: K, n: nat)
    requires n > 0 && NoDuplicates(s)
    ensures First(Without(First(s, n), k), n - 1) == First(Without(s, k), n - 1)
    decreases |s|
  {
    if |s| > n {
      var t := s[..n];
      assert t[0] == s[0];
      if s[0] == k {
        assert t[1..] == s[1..][..n - 1];
      } else if n == 1 {
        assert t[1..] == [];
      } else {
        assert t[1..] == s[1..][..n - 1] == First(s[1..], n - 1);
        assert NoDuplicates(s[1..]);
        WithoutOfFirst(s[1..], k, n - 1);
        WithoutKeepsOthers(s[1..], k);
        WithoutKeepsOthers(t[1..], k);
        assert Without(t, k) == [s[0]] + Without(t[1..], k);
      }
    }
  }

  /** Evicting at every step loses nothing that a cache of the same size would still have held. */
  lemma {:induction false} CacheHoldsMostRecent<K>(uses: seq<K>, k: K, n: nat)
    requires n > 0
    ensures Used(First(Recent(uses), n), k, n) == First(Recent(uses + [k]), n)
  {
    assert (uses + [k])[..|uses|] == uses;
    var s := Recent(uses);
    RecentIsDistinct(uses);
    WithoutOfFirst(s, k, n);
    FirstOfPrepend(k, Without(First(s, n), k), n);
    FirstOfPrepend(k, Without(s, k), n);
  }

  lemma FirstOfPrepend<K>(k: K, s: seq<K>, n: nat)
    requires n > 0
    ensures First([k] + s, n) == [k] + First(s, n - 1)
  {
  }

  // ---------------------------------------------------------------- the cache

  class Node<K, V> {
    const key: K
    const val: V

    constructor (key: K, val: V)
      ensures this.key == key && this.val == val
    {
      this.key, this.val := key, val;
    }
  }

  function Keys<K, V>(list: seq<Node<K, V>>): (keys: seq<K>)
    ensures |keys| == |list|
  {
    if list == [] then [] else [list[0].key] + Keys(list[1..])
  }

  lemma {:induction false} KeysAt<K, V>(list: seq<Node<K, V>>, i: nat)
    requires i < |list|
    ensures Keys(list)[i] == list[i].key
  {
    if i > 0 {
      KeysAt(list[1..], i - 1);
    }
  }

  class NameCache<K(==), V(==)> {
    const defaultValue: V
    const maxSize: nat
    var list: seq<Node<K, V>>
    var index: map<K, Node<K, V>>
    /** The value most recently put for each key. */
    ghost var latest: map<K, V>

    /** The index points into the list, at the value last put for the key. */
    ghost predicate Coherent()
      reads this
    {
      && NoDuplicates(list)
      && forall k :: k in index ==>
           index[k] in list && index[k].key == k && k in latest && index[k].val == latest[k]
    }

    /** Every node of the list is indexed. */
    ghost predicate Covered()
      reads this
    {
      forall node :: node in list ==> node.key in index && index[node.key] == node
    }

    ghost predicate Valid()
      reads this
    {
      Coherent() && Covered() && |index| <= maxSize
    }

    constructor (maximumSize: nat, defaultValue: V)
      ensures Valid() && list == [] && index == map[]
      ensures this.maxSize == maximumSize && this.defaultValue == defaultValue
    {
      this.maxSize, this.defaultValue := maximumSize, defaultValue;
      list, index, latest := [], map[], map[];
    }

    /** A hit moves the entry to the front and returns the value last put for its key. */
    method Get(key: K) returns (val: V)
      requires Coherent()
      modifies `list
      ensures Coherent() && (old(Valid()) ==> Valid())
      ensures val == if key in index then latest[key] else defaultValue
      ensures list == if key in index then [index[key]] + Without(old(list), index[key]) else old(list)
    {
      if key !in index {
        return defaultValue;
      }
      hide NoDuplicates, Without;
      var found := index[key];
      WithoutKeepsOthers(list, found);
      WithoutIsDistinct(list, found);
      PrependIsDistinct(found, Without(list, found));
      list := [found] + Without(list, found);
      return found.val;
    }

    method PushFront(key: K, val: V)
      requires Coherent()
      modifies this
      ensures Coherent()
      ensures old(Covered()) ==> (Covered() <==> key !in old(index))
      ensures latest == old(latest)[key := val]
      ensures |list| > 0 && fresh(list[0]) && list[0].key == key && list[0].val == val
      ensures list[1..] == old(list) && index == old(index)[key := list[0]]
    {
      hide NoDuplicates;
      ghost var before, indexed := list, index;
      var node := new Node(key, val);
      assert node !in list;
      PrependIsDistinct(node, list);
      list := [node] + list;
      index := index[key := node];
      latest := latest[key := val];
      assert list[1..] == before;
      assert forall n :: n in list <==> n == node || n in before;
      if key in indexed {
        assert indexed[key] in list;
      }
    }

    method PopBack() returns (lru: Node<K, V>)
      requires Coherent() && list != []
      modifies `index, `list
      ensures Coherent() && (old(Covered()) ==> Covered())
      ensures lru == old(list[|list| - 1]) && list == old(list[..|list| - 1]) && index == old(index) - {lru.key}
      ensures old(Covered()) ==> lru.key in old(index)
    {
      ghost var before := list;
      lru := list[|list| - 1];
      index := index - {lru.key};
      list := list[..|list| - 1];
      assert before == list + [lru];
      assert forall n :: n in list ==> n in before;
    }

    /**
     * Adds an entry in front, and evicts the last one when the index has outgrown its limit.
     * The cache stays well formed exactly when the key was new.
     */
    method Put(key: K, val: V) returns (evicted: V)
      requires Coherent() && maxSize > 0
      modifies this
      ensures Coherent()
      ensures old(Valid()) ==> (Valid() <==> key !in old(index))
      ensures latest == old(latest)[key := val]
      ensures |list| > 0 && fresh(list[0]) && list[0].key == key && list[0].val == val
      ensures if |old(index).Keys + {key}| <= maxSize
              then
                && list[1..] == old(list) && index == old(index)[key := list[0]]
                && evicted == defaultValue
              else
                && old(list) != [] && list[1..] == old(list[..|list| - 1])
                && index == old(index)[key := list[0]] - {old(list[|list| - 1].key)}
                && evicted == old(list[|list| - 1].val)
    {
      hide NoDuplicates;
      ghost var before, indexed := list, index;
      PushFront(key, val);
      assert list == [list[0]] + before;
      assert index.Keys == indexed.Keys + {key};
      if |index| > maxSize {
        SeveralIndexed(key);
        var lru := PopBack();
        return lru.val;
      }
      return defaultValue;
    }

    lemma SeveralIndexed(key: K)
      requires Coherent() && |index| > 1 && key in index
      ensures |list| > 1
    {
      hide NoDuplicates;
      assert |index.Keys - {key}| > 0;
      var other :| other in index && other != key;
      assert index[other] != index[key];
    }

    method Clear()
      modifies this
      ensures Valid() && list == [] && index == map[] && latest == map[]
    {
      index, list, latest := map[], [], map[];
    }
  }

  lemma {:induction false} KeysOfWithout<K, V>(list: seq<Node<K, V>>, node: Node<K, V>)
    requires node in list
    requires forall m :: m in list && m.key == node.key ==> m == node
    ensures Keys(Without(list, node)) == Without(Keys(list), node.key)
    decreases |list|
  {
    if list[0] != node {
      assert list[0] in list;
      KeysOfWithout(list[1..], node);
      assert Without(list, node) == [list[0]] + Without(list[1..], node);
      assert ([list[0]] + Without(list[1..], node))[1..] == Without(list[1..], node);
      assert Keys(list)[1..] == Keys(list[1..]);
    }
  }

  lemma {:induction false} KeysOfPrefix<K, V>(list: seq<Node<K, V>>, n: nat)
    requires n <= |list|
    ensures Keys(list[..n]) == Keys(list)[..n]
    decreases |list|
  {
    if n > 0 {
      assert list[..n][1..] == list[1..][..n - 1];
      KeysOfPrefix(list[1..], n - 1);
    }
  }

  lemma {:induction false} KeyIsListed<K, V>(list: seq<Node<K, V>>, node: Node<K, V>)
    requires node in list
    ensures node.key in Keys(list)
    decreases |list|
  {
    if list[0] != node {
      KeyIsListed(list[1..], node);
    }
  }

  lemma {:induction false} ListedKey<K, V>(list: seq<Node<K, V>>, k: K)
    requires k in Keys(list)
    ensures exists node :: node in list && node.key == k
    decreases |list|
  {
    if list[0].key == k {
      assert list[0] in list;
    } else {
      ListedKey(list[1..], k);
      var node :| node in list[1..] && node.key == k;
      assert node in list;
    }
  }

  /** A covered list has as many nodes as the index has keys, and the same keys. */
  lemma CoveredIsIndexed<K, V>(cache: NameCache<K, V>)
    requires cache.Coherent() && cache.Covered()
    ensures forall k :: k in cache.index <==> k in Keys(cache.list)
    ensures |cache.index| == |cache.list|
  {
    var list, index := cache.list, cache.index;
    forall k | k in index ensures k in Keys(list) {
      KeyIsListed(list, index[k]);
    }
    forall k | k in Keys(list) ensures k in index {
      ListedKey(list, k);
    }
    forall i, j | 0 <= i < j < |list| ensures Keys(list)[i] != Keys(list)[j] {
      KeysAt(list, i);
      KeysAt(list, j);
      assert list[i] in list && list[j] in list;
    }
    DistinctCount(Keys(list), index.Keys);
  }

  lemma CacheFacts<K, V>(cache: NameCache<K, V>)
    requires cache.Valid()
    ensures cache.Coherent() && NoDuplicates(cache.list) && |cache.index| == |cache.list| <= cache.maxSize
    ensures forall k :: k in cache.index <==> k in Keys(cache.list)
    ensures forall k :: k in cache.index ==>
              cache.index[k] in cache.list && cache.index[k].key == k
              && k in cache.latest && cache.index[k].val == cache.latest[k]
    ensures forall node :: node in cache.list ==> node.key in cache.index && cache.index[node.key] == node
  {
    CoveredIsIndexed(cache);
  }

  lemma {:induction false} DistinctCount<K>(s: seq<K>, keys: set<K>)
    requires NoDuplicates(s) && forall k :: k in keys <==> k in s
    ensures |keys| == |s|
    decreases |s|
  {
    if s == [] {
      assert keys == {};
    } else {
      assert s == [s[0]] + s[1..];
      assert forall i :: 0 <= i < |s[1..]| ==> s[1..][i] == s[i + 1];
      DistinctCount(s[1..], keys - {s[0]});
    }
  }

  /** What Put does for a new key, which is all that a least-recently-used cache asks of it. */
  method PutNew<K, V>(cache: NameCache<K, V>, key: K, val: V) returns (evicted: V)
    requires cache.Valid() && cache.maxSize > 0 && key !in cache.index
    modifies cache
    ensures cache.Valid()
    ensures |cache.list| > 0 && fresh(cache.list[0]) && cache.list[0].key == key && cache.list[0].val == val
    ensures if |old(cache.list)| < cache.maxSize
            then cache.list[1..] == old(cache.list) && evicted == cache.defaultValue
            else
              && old(cache.list) != [] && cache.list[1..] == old(cache.list[..|cache.list| - 1])
              && evicted == old(cache.list[|cache.list| - 1].val)
  {
    hide NoDuplicates, Keys, NameCache.Valid, NameCache.Coherent, NameCache.Covered;
    CacheFacts(cache);
    assert |cache.index.Keys + {key}| == |cache.list| + 1;
    evicted := cache.Put(key, val);
  }

  // ---------------------------------------------------------------- ownership

  /** A name allocated by the naming helper. */
  class Name {
    const text: string

    constructor (text: string)
      ensures this.text == text
    {
      this.text := text;
    }
  }

  type NameNode = Node<FunctionIdentifier, Name?>

  /** The live names are exactly the values of the list, each held by one node. */
  ghost predicate Owned(list: seq<NameNode>, live: set<Name>) {
    && (forall node :: node in list ==> node.val != null && node.val in live)
    && (forall node, other :: node in list && other in list && node.val == other.val ==> node == other)
    && (forall name :: name in live ==> exists node :: node in list && node.val == name)
  }

  lemma OwnedAt(list: seq<NameNode>, live: set<Name>, node: NameNode)
    requires Owned(list, live) && node in list
    ensures node.val != null && node.val in live
  {
  }

  lemma OwnedAfterPush(list: seq<NameNode>, live: set<Name>, node: NameNode, name: Name)
    requires Owned(list, live) && node.val == name && name !in live
    ensures Owned([node] + list, live + {name})
  {
    var pushed := [node] + list;
    assert forall n :: n in pushed <==> n == node || n in list;
  }

  lemma OwnedAfterPop(list: seq<NameNode>, live: set<Name>, rest: seq<NameNode>, node: NameNode)
    requires Owned(list, live) && NoDuplicates(list) && list == rest + [node]
    ensures node.val != null && node.val in live
    ensures Owned(rest, live - {node.val})
  {
    assert forall n :: n in list <==> n == node || n in rest;
    forall i | 0 <= i < |rest| ensures rest[i] != node {
      assert list[i] == rest[i] && list[|rest|] == node;
    }
  }

  lemma OwnedAfterMove(list: seq<NameNode>, live: set<Name>, node: NameNode)
    requires Owned(list, live) && node in list
    ensures Owned([node] + Without(list, node), live)
  {
    WithoutKeepsOthers(list, node);
    var moved := [node] + Without(list, node);
    assert forall n :: n in moved <==> n in list;
  }

  lemma MovedToFront(list: seq<NameNode>, live: set<Name>, node: NameNode, n: nat)
    requires Owned(list, live) && node in list && |list| <= n
    requires forall m :: m in list && m.key == node.key ==> m == node
    ensures Owned([node] + Without(list, node), live)
    ensures Keys([node] + Without(list, node)) == Used(Keys(list), node.key, n)
    ensures forall m :: m in [node] + Without(list, node) ==> m in list
  {
    hide Owned, Without, Keys;
    OwnedAfterMove(list, live, node);
    KeysOfWithout(list, node);
    WithoutKeepsOthers(list, node);
    KeysOfPrepend(node, Without(list, node));
    KeyIsListed(list, node);
    WithoutKeepsOthers(Keys(list), node.key);
  }

  lemma KeysOfPrepend<K, V>(node: Node<K, V>, list: seq<Node<K, V>>)
    ensures Keys([node] + list) == [node.key] + Keys(list)
  {
    assert ([node] + list)[1..] == list;
  }

  /** The name that goes when another one is added: the least recently used one of a full cache of n. */
  ghost function Evictee(list: seq<NameNode>, n: nat): set<Name> {
    if |list| < n || n == 0 then {}
    else var lru := list[n - 1].val; if lru == null then {} else {lru}
  }

  lemma AddedInFront(before: seq<NameNode>, live: set<Name>, list: seq<NameNode>, name: Name, n: nat)
    requires Owned(before, live) && name !in live && NoDuplicates(before) && |before| <= n && n > 0
    requires |list| > 0 && list[0].val == name && list[0] !in before && list[0].key !in Keys(before)
    requires list[1..] == if |before| < n then before else before[..n - 1]
    ensures Keys(list) == Used(Keys(before), list[0].key, n)
    ensures forall m :: m in list ==> m == list[0] || m in before
    ensures if |before| < n then Evictee(before, n) == {}
            else before[n - 1].val != null && before[n - 1].val in live && Evictee(before, n) == {before[n - 1].val}
    ensures Owned(list, live + {name} - Evictee(before, n))
  {
    hide Owned, Without, Keys, NoDuplicates;
    var node := list[0];
    KeysOfPrepend(node, list[1..]);
    assert list == [node] + list[1..];
    OwnedAfterPush(before, live, node, name);
    WithoutAbsent(Keys(before), node.key);
    if |before| < n {
      assert live + {name} - Evictee(before, n) == live + {name};
    } else {
      var last := before[n - 1];
      assert last in before;
      assert [node] + before == list + [last];
      PrependIsDistinct(node, before);
      OwnedAfterPop([node] + before, live + {name}, list, last);
      KeysOfPrefix(before, n - 1);
    }
  }

  // ---------------------------------------------------------------- the naming helper

  const MAX_FUNCTION_NAME_CACHE_SIZE: nat := 5000
  const VOLATILE_FUNCTION_IDENTIFIER_CACHE_SIZE: nat := 2000
  const UNKNOWN_NATIVE_FUNCTION: string := "Unknown_Native_Function(unknown)"

  type FunctionID = nat

  /** What the runtime and the stack walker answer, if there is a stack walker. */
  datatype Resolver =
    Resolver(hasStackWalker: bool, native: nat -> Option<string>, managed: FunctionIdentifier -> string)
  {
    function NameOf(identifier: FunctionIdentifier): string {
      if hasStackWalker && identifier.IsNative() then
        match native(identifier.nativeIp)
        case Some(name) => name
        case None => UNKNOWN_NATIVE_FUNCTION
      else managed(identifier)
    }
  }

  /** Every cached name is the one its key resolves to. */
  ghost predicate Named(list: seq<NameNode>, resolver: Resolver) {
    forall node :: node in list ==> node.val != null && node.val.text == resolver.NameOf(node.key)
  }

  lemma NamedSubset(list: seq<NameNode>, other: seq<NameNode>, resolver: Resolver)
    requires Named(list, resolver) && forall node :: node in other ==> node in list
    ensures Named(other, resolver)
  {
  }

  lemma NamedAt(list: seq<NameNode>, node: NameNode, resolver: Resolver)
    requires Named(list, resolver) && node in list
    ensures node.val != null && node.val.text == resolver.NameOf(node.key)
  {
  }

  lemma NamedAdded(before: seq<NameNode>, list: seq<NameNode>, resolver: Resolver)
    requires Named(before, resolver) && |list| > 0 && list[0].val != null
    requires list[0].val.text == resolver.NameOf(list[0].key) && forall m :: m in list ==> m == list[0] || m in before
    ensures Named(list, resolver)
  {
  }

  const INVALID_IDENTIFIER: FunctionIdentifier := FunctionIdentifier(0, 0, false, 0)

  class NamingHelper {
    const functionNameCache: NameCache<FunctionIdentifier, Name?>
    const functionIdentifierCache: NameCache<FunctionID, FunctionIdentifier>
    const resolver: Resolver
    var misses: nat
    ghost var created: set<Name>
    ghost var deleted: set<Name>

    /** Names are created, then cached, then deleted once. */
    ghost predicate Valid()
      reads this, functionNameCache
    {
      && functionNameCache.Valid() && functionNameCache.maxSize == MAX_FUNCTION_NAME_CACHE_SIZE
      && functionNameCache.defaultValue == null
      && deleted <= created
      && Owned(functionNameCache.list, created - deleted)
      && Named(functionNameCache.list, resolver)
    }

    constructor (resolver: Resolver)
      ensures Valid() && fresh(functionNameCache) && fresh(functionIdentifierCache)
      ensures functionNameCache.list == [] && functionIdentifierCache.Valid()
      ensures functionIdentifierCache.defaultValue == INVALID_IDENTIFIER
      ensures this.resolver == resolver && created == {} && deleted == {}
    {
      functionNameCache := new NameCache(MAX_FUNCTION_NAME_CACHE_SIZE, null);
      functionIdentifierCache := new NameCache(VOLATILE_FUNCTION_IDENTIFIER_CACHE_SIZE, INVALID_IDENTIFIER);
      this.resolver := resolver;
      misses, created, deleted := 0, {}, {};
    }

    /** Freeing a name twice, or one that was never created, is an error. */
    method Delete(name: Name?)
      requires name != null ==> name in created && name !in deleted
      modifies `deleted
      ensures deleted == old(deleted) + if name == null then {} else {name}
    {
      deleted := deleted + if name == null then {} else {name};
    }

    method Lookup(identifier: FunctionIdentifier) returns (name: Name)
      requires Valid()
      modifies `misses, `created, `deleted, functionNameCache
      ensures Valid()
      ensures name.text == resolver.NameOf(identifier)
      ensures name in created && name !in deleted
      ensures Keys(functionNameCache.list)
           == Used(old(Keys(functionNameCache.list)), identifier, MAX_FUNCTION_NAME_CACHE_SIZE)
      ensures identifier in old(functionNameCache.index) ==>
                name == old(functionNameCache.index[identifier].val)
                && misses == old(misses) && created == old(created) && deleted == old(deleted)
      ensures identifier !in old(functionNameCache.index) ==>
                && fresh(name) && misses == old(misses) + 1 && created == old(created) + {name}
                && deleted == old(deleted) + Evictee(old(functionNameCache.list), MAX_FUNCTION_NAME_CACHE_SIZE)
    {
      hide NoDuplicates, Without, Keys, Owned, Used, Named, NameCache.Valid, NameCache.Coherent, NameCache.Covered;
      ghost var before, live := functionNameCache.list, created - deleted;
      CacheFacts(functionNameCache);
      if identifier in functionNameCache.index {
        OwnedAt(before, live, functionNameCache.index[identifier]);
      }
      var answer := functionNameCache.Get(identifier);
      if answer != null {
        MovedToFront(before, live, functionNameCache.list[0], MAX_FUNCTION_NAME_CACHE_SIZE);
        NamedSubset(before, functionNameCache.list, resolver);
        NamedAt(functionNameCache.list, functionNameCache.list[0], resolver);
        OwnedAt(functionNameCache.list, live, functionNameCache.list[0]);
        return answer;
      }
      name := Miss(identifier);
    }

    /** Resolves, caches and returns a name that is not in the cache. */
    method Miss(identifier: FunctionIdentifier) returns (raw: Name)
      requires Valid() && identifier !in functionNameCache.index
      modifies `misses, `created, `deleted, functionNameCache
      ensures Valid()
      ensures raw.text == resolver.NameOf(identifier)
      ensures raw in created && raw !in deleted
      ensures Keys(functionNameCache.list)
           == Used(old(Keys(functionNameCache.list)), identifier, MAX_FUNCTION_NAME_CACHE_SIZE)
      ensures fresh(raw) && misses == old(misses) + 1 && created == old(created) + {raw}
      ensures deleted == old(deleted) + Evictee(old(functionNameCache.list), MAX_FUNCTION_NAME_CACHE_SIZE)
    {
      hide NoDuplicates, Without, Keys, Owned, Used, Named, Evictee, Valid, NameCache.Valid, NameCache.Coherent,
        NameCache.Covered;
      ValidParts();
      ghost var before, live := functionNameCache.list, created - deleted;
      CacheFacts(functionNameCache);
      misses := misses + 1;
      raw := new Name(resolver.NameOf(identifier));
      created := created + {raw};
      var evicted := PutNew(functionNameCache, identifier, raw);
      AddedInFront(before, live, functionNameCache.list, raw, MAX_FUNCTION_NAME_CACHE_SIZE);
      Delete(evicted);
      NamedAdded(before, functionNameCache.list, resolver);
      Balance(live, raw, Evictee(before, MAX_FUNCTION_NAME_CACHE_SIZE), old(created), old(deleted));
      assert Valid() by {
        Revalidated();
      }
    }

    lemma Revalidated()
      requires && functionNameCache.Valid() && functionNameCache.maxSize == MAX_FUNCTION_NAME_CACHE_SIZE
               && functionNameCache.defaultValue == null
               && deleted <= created
               && Owned(functionNameCache.list, created - deleted)
               && Named(functionNameCache.list, resolver)
      ensures Valid()
    {
    }

    lemma ValidParts()
      requires Valid()
      ensures && functionNameCache.Valid() && functionNameCache.maxSize == MAX_FUNCTION_NAME_CACHE_SIZE
              && functionNameCache.defaultValue == null
              && deleted <= created
              && Owned(functionNameCache.list, created - deleted)
              && Named(functionNameCache.list, resolver)
    {
    }

    lemma Balance(live: set<Name>, raw: Name, evictee: set<Name>, created: set<Name>, deleted: set<Name>)
      requires live == created - deleted && deleted <= created && evictee <= live + {raw} && raw !in created
      ensures created + {raw} - (deleted + evictee) == live + {raw} - evictee
    {
    }

    /** A run of lookups: the cache holds the most recently used identifiers, latest first. */
    method LookupAll(identifiers: seq<FunctionIdentifier>) returns (names: seq<string>)
      requires Valid() && functionNameCache.list == []
      modifies `misses, `created, `deleted, functionNameCache
      ensures Valid()
      ensures Keys(functionNameCache.list) == First(Recent(identifiers), MAX_FUNCTION_NAME_CACHE_SIZE)
      ensures |names| == |identifiers| && forall i :: 0 <= i < |names| ==> names[i] == resolver.NameOf(identifiers[i])
      ensures |created - deleted| <= MAX_FUNCTION_NAME_CACHE_SIZE
    {
      hide NoDuplicates, Without, Keys, Owned, Used, Named, Recent, First, NameCache.Valid;
      EmptyRun();
      names := [];
      for n := 0 to |identifiers|
        invariant Valid()
        invariant Keys(functionNameCache.list) == First(Recent(identifiers[..n]), MAX_FUNCTION_NAME_CACHE_SIZE)
        invariant |names| == n && forall i :: 0 <= i < n ==> names[i] == resolver.NameOf(identifiers[i])
      {
        CacheHoldsMostRecent(identifiers[..n], identifiers[n], MAX_FUNCTION_NAME_CACHE_SIZE);
        assert identifiers[..n + 1] == identifiers[..n] + [identifiers[n]];
        var name := Lookup(identifiers[n]);
        names := names + [name.text];
      }
      assert identifiers[..|identifiers|] == identifiers;
      CacheFacts(functionNameCache);
      OwnedCount(functionNameCache.list, created - deleted);
    }

    lemma EmptyRun()
      requires functionNameCache.list == []
      ensures forall s: seq<FunctionIdentifier> :: s == [] ==>
                Keys(functionNameCache.list) == First(Recent(s), MAX_FUNCTION_NAME_CACHE_SIZE)
    {
    }

    /**
     * Managed functions are resolved once per capture. A resolution that failed is not trusted:
     * it is repeated and put again under a key that is already there, which the cache is not made for.
     */
    method LookupManagedFunction(functionId: FunctionID, resolved: FunctionIdentifier)
        returns (identifier: FunctionIdentifier)
      requires functionIdentifierCache.Coherent() && functionIdentifierCache.maxSize > 0
      requires functionIdentifierCache.defaultValue == INVALID_IDENTIFIER
      modifies functionIdentifierCache
      ensures functionIdentifierCache.Coherent()
      ensures identifier ==
        if Trusted(old(functionIdentifierCache.index), old(functionIdentifierCache.latest), functionId)
        then old(functionIdentifierCache.latest)[functionId]
        else resolved
      ensures old(functionIdentifierCache.Valid()) ==>
                (functionIdentifierCache.Valid() <==>
                 functionId !in old(functionIdentifierCache.index)
                 || Trusted(old(functionIdentifierCache.index), old(functionIdentifierCache.latest), functionId))
    {
      hide NoDuplicates, Without;
      var cachedIdentifier := functionIdentifierCache.Get(functionId);
      if cachedIdentifier.isValid {
        return cachedIdentifier;
      }
      var evicted := functionIdentifierCache.Put(functionId, resolved);
      return resolved;
    }
  }

  ghost predicate Trusted<N>(index: map<FunctionID, N>, latest: map<FunctionID, FunctionIdentifier>,
        functionId: FunctionID)
  {
    functionId in index && functionId in latest && latest[functionId].isValid
  }

  lemma {:induction false} OwnedCount(list: seq<NameNode>, live: set<Name>)
    requires Owned(list, live) && NoDuplicates(list)
    ensures |live| == |list|
    decreases |list|
  {
    if list == [] {
      assert live == {};
    } else {
      var rest, node := list[..|list| - 1], list[|list| - 1];
      assert list == rest + [node];
      OwnedAfterPop(list, live, rest, node);
      OwnedCount(rest, live - {node.val});
    }
  }

  /** The keys in the list of a cache and those in its index. */
  datatype CacheKeys<K(==)> = CacheKeys(listed: seq<K>, indexed: set<K>)
  {
    /** What a put does to them when the cache is limited to n entries. */
    function Put(key: K, n: nat): CacheKeys<K> {
      if |indexed + {key}| <= n || listed == [] then CacheKeys([key] + listed, indexed + {key})
      else CacheKeys([key] + listed[..|listed| - 1], indexed + {key} - {listed[|listed| - 1]})
    }
  }

  ghost function KeysOf<K, V>(cache: NameCache<K, V>): CacheKeys<K>
    reads cache
  {
    CacheKeys(Keys(cache.list), cache.index.Keys)
  }

  method PutOnKeys<K, V>(cache: NameCache<K, V>, key: K, val: V)
    requires cache.Coherent() && cache.maxSize > 0
    modifies cache
    ensures cache.Coherent()
    ensures KeysOf(cache) == old(KeysOf(cache)).Put(key, cache.maxSize)
  {
    hide NoDuplicates, Keys, NameCache.Coherent;
    ghost var before := cache.list;
    var evicted := cache.Put(key, val);
    assert cache.list == [cache.list[0]] + cache.list[1..];
    KeysOfPrepend(cache.list[0], cache.list[1..]);
    if before != [] {
      KeysOfPrefix(before, |before| - 1);
      KeysAt(before, |before| - 1);
    }
  }

  /** The keys k, k - 1, ..., 0. */
  function Descending(k: nat): (s: seq<int>)
    ensures |s| == k + 1 && forall i :: 0 <= i <= k ==> s[i] == k - i
  {
    if k == 0 then [0] else [k] + Descending(k - 1)
  }

  function Range(lo: int, hi: int): (s: set<int>)
    requires lo <= hi
    ensures |s| == hi - lo && forall i :: i in s <==> lo <= i < hi
    decreases hi - lo
  {
    if lo == hi then {} else Range(lo, hi - 1) + {hi - 1}
  }

  /** After 0 has been put twice and 1 up to k once, within the limit. */
  function Stuffed(k: nat): CacheKeys<int> {
    CacheKeys(Descending(k) + [0], Range(0, k + 1))
  }

  lemma StuffedStep(k: nat, n: nat)
    requires k + 1 < n
    ensures Stuffed(k).Put(k + 1, n) == Stuffed(k + 1)
  {
    assert Range(0, k + 1) + {k + 1} == Range(0, k + 2);
    assert [k + 1] + (Descending(k) + [0]) == Descending(k + 1) + [0];
  }

  /** The next put evicts the stale node of 0, and with it the entry of 0. */
  lemma StaleNodeEvicted(n: nat)
    requires n > 0
    ensures Stuffed(n - 1).Put(n, n) == CacheKeys([n] + Descending(n - 1), Range(1, n + 1))
  {
    hide Descending, Range;
    var keys := Stuffed(n - 1);
    assert keys.indexed + {n} == Range(0, n + 1);
    assert Range(0, n + 1) - {0} == Range(1, n + 1);
    assert keys.listed[|keys.listed| - 1] == 0 && keys.listed[..|keys.listed| - 1] == Descending(n - 1);
  }

  /** The one after it evicts the live node of 0, which no entry belongs to by then. */
  lemma OneTooMany(n: nat)
    requires n > 0
    ensures Stuffed(n - 1).Put(n, n).Put(n + 1, n).indexed == Range(1, n + 2)
  {
    hide Descending, Range;
    StaleNodeEvicted(n);
    var keys := CacheKeys([n] + Descending(n - 1), Range(1, n + 1));
    assert keys.indexed + {n + 1} == Range(1, n + 2);
    assert Range(1, n + 2) - {0} == Range(1, n + 2);
    assert keys.listed[|keys.listed| - 1] == 0;
  }

  /**
   * Putting a present key costs more than a stale node: a cache of any limit, in which one key was put twice,
   * comes to index one entry too many, because the last node it evicts belongs to no entry any more.
   */
  method OutgrowsItsLimit(limit: nat) returns (entries: nat)
    requires limit > 0
    ensures entries == limit + 1
  {
    hide NameCache.Valid, NameCache.Coherent, NameCache.Covered, Keys, Descending, Range, NoDuplicates;
    var cache := new NameCache<int, int>(limit, 0);
    CacheFacts(cache);
    EmptyKeys(cache);
    PutOnKeys(cache, 0, 0);
    PutOnKeys(cache, 0, 0);
    for k := 0 to limit - 1
      invariant cache.Coherent() && cache.maxSize == limit
      invariant KeysOf(cache) == Stuffed(k)
    {
      StuffedStep(k, limit);
      PutOnKeys(cache, k + 1, 0);
    }
    OneTooMany(limit);
    PutOnKeys(cache, limit, 0);
    PutOnKeys(cache, limit + 1, 0);
    entries := |cache.index|;
    assert cache.index.Keys == Range(1, limit + 2);
  }

  lemma EmptyKeys(cache: NameCache<int, int>)
    requires cache.list == [] && cache.index == map[] && cache.maxSize > 0
    ensures KeysOf(cache).Put(0, cache.maxSize).Put(0, cache.maxSize) == Stuffed(0)
  {
    var n := cache.maxSize;
    assert |{0}| == 1 && {} + {0} == {0} && {0} + {0} == {0};
    var none: CacheKeys<int> := CacheKeys([], {});
    assert KeysOf(cache) == none && none.Put(0, n) == CacheKeys([0], {0});
    assert Range(0, 1) == {0};
    assert Descending(0) + [0] == [0, 0] == [0] + [0];
  }
}
