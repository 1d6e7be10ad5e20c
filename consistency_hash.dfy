/**
 * The consistent-hash load balancer: a ring of virtual nodes (`shards`)
 * and the list of real nodes it was built from (`realNodes`), both updated
 * in place by `init`, `addNode` and `delNode`. Each method is proved
 * against the value-level ring of module HashRing.
 */
module ConsistencyHash {
  import opened Wrappers
  import opened FnvHash
  import opened TreeMaps
  import opened HashRing

  /**
   * The hash the balancer places labels and requests with: `FnvHash.Hash`,
   * seen through its type alone. The balancer stores this function rather
   * than naming `Hash` in its loops, so that the proofs about the ring never
   * unfold the bit-vector arithmetic of the hash.
   */
  function RingHash(s: string): int
  {
    Hash(s)
  }

  class ConsistencyHashBalance {
    /**
     * The string hash of `getHash`, fixed by the constructor to `RingHash`
     * (which `FnvHash.GetHash` computes). The methods below are proved for
     * whatever hash the balancer holds.
     */
    const hash: string -> int
    /** Ring position to virtual-node label; a `TreeMap<Integer, String>`. */
    var shards: Ring
    /** The real nodes in insertion order; a `LinkedList<String>`. */
    var realNodes: seq<string>

    /** Every ring entry sits at its label's hash and belongs to a listed real node. */
    ghost predicate Valid()
      reads this
    {
      WellFormedRing(hash, shards, realNodes)
    }

    constructor()
      ensures hash == RingHash
      ensures shards == map[] && realNodes == []
      ensures Valid()
    {
      hash := RingHash;
      shards := map[];
      realNodes := [];
    }

    /** The inner loop of `init` and `addNode`: puts the VIRTUAL_NUM labels of `server` in order. */
    method AddVirtualNodes(server: string)
      modifies this`shards
      ensures shards == PutVirtualNodes(hash, old(shards), server, VIRTUAL_NUM)
    {
      var i := 0;
      while i < VIRTUAL_NUM
        invariant 0 <= i <= VIRTUAL_NUM
        invariant shards == PutVirtualNodes(hash, old(shards), server, i)
      {
        var virtualNode := VirtualLabel(server, i);
        var key := hash(virtualNode);
        shards := shards[key := virtualNode];
        i := i + 1;
      }
    }

    /** `init`: appends every listed server to `realNodes` and puts its virtual nodes; nothing is cleared. */
    method Init(serviceList: seq<string>)
      modifies this
      ensures realNodes == old(realNodes) + serviceList
      ensures shards == AddServers(hash, old(shards), serviceList)
      ensures old(Valid()) ==> Valid()
    {
      ghost var ring0, nodes0 := shards, realNodes;
      var j := 0;
      while j < |serviceList|
        invariant 0 <= j <= |serviceList|
        invariant realNodes == nodes0 + serviceList[..j]
        invariant shards == AddServers(hash, ring0, serviceList[..j])
      {
        var server := serviceList[j];
        realNodes := realNodes + [server];
        assert serviceList[..j + 1][..j] == serviceList[..j];
        AddVirtualNodes(server);
        j := j + 1;
      }
      assert serviceList[..j] == serviceList;
      if WellFormedRing(hash, ring0, nodes0) {
        WellFormedRingGrow(hash, ring0, nodes0, realNodes);
        AddServersWellFormed(hash, ring0, realNodes, serviceList);
      }
    }

    /**
     * `getServer`: builds the ring from `serviceList` only when it is empty,
     * then returns the real node of the first virtual node clockwise from the
     * request's hash.
     */
    method GetServer(node: string, serviceList: seq<string>) returns (r: Result<string, BalanceError>)
      modifies this
      ensures old(shards) != map[] ==> shards == old(shards) && realNodes == old(realNodes)
      ensures old(shards) == map[] ==>
        shards == AddServers(hash, map[], serviceList) && realNodes == old(realNodes) + serviceList
      ensures r == Select(shards, hash(node))
      ensures old(Valid()) ==> Valid()
    {
      if shards == map[] {
        Init(serviceList);
      }
      var tail := CeilingKey(shards, hash(node));
      var key: int;
      if tail.None? {
        if shards == map[] {
          return Err(NoSuchElement);
        }
        key := FirstKey(shards);
      } else {
        key := tail.value;
      }
      var virtualNode := shards[key];
      var cut := IndexOfAmpPair(virtualNode, 0);
      if cut.None? {
        return Err(StringIndexOutOfBounds);
      }
      r := Ok(virtualNode[..cut.value]);
    }

    /** `addNode`: a node not yet listed is appended and its virtual nodes are put; a listed one changes nothing. */
    method AddNode(node: string)
      modifies this
      ensures node in old(realNodes) ==> shards == old(shards) && realNodes == old(realNodes)
      ensures node !in old(realNodes) ==>
        realNodes == old(realNodes) + [node] && shards == PutVirtualNodes(hash, old(shards), node, VIRTUAL_NUM)
      ensures old(Valid()) ==> Valid()
    {
      if node !in realNodes {
        ghost var ring0, nodes0 := shards, realNodes;
        realNodes := realNodes + [node];
        AddVirtualNodes(node);
        if WellFormedRing(hash, ring0, nodes0) {
          WellFormedRingGrow(hash, ring0, nodes0, realNodes);
          PutVirtualNodesWellFormed(hash, ring0, realNodes, node);
        }
      }
    }

    /** `delNode`: a listed node loses its first occurrence and the keys of its virtual nodes; otherwise nothing changes. */
    method DelNode(node: string)
      modifies this
      ensures node !in old(realNodes) ==> shards == old(shards) && realNodes == old(realNodes)
      ensures node in old(realNodes) ==>
        realNodes == RemoveFirst(old(realNodes), node) &&
        shards == RemoveVirtualNodes(hash, old(shards), node, VIRTUAL_NUM)
      ensures old(Valid()) ==> Valid()
    {
      if node in realNodes {
        ghost var ring0, nodes0 := shards, realNodes;
        realNodes := RemoveFirst(realNodes, node);
        var i := 0;
        while i < VIRTUAL_NUM
          invariant 0 <= i <= VIRTUAL_NUM
          invariant realNodes == RemoveFirst(nodes0, node)
          invariant shards == RemoveVirtualNodes(hash, ring0, node, i)
        {
          var virtualNode := VirtualLabel(node, i);
          var key := hash(virtualNode);
          shards := shards - {key};
          i := i + 1;
        }
        if WellFormedRing(hash, ring0, nodes0) {
          RemoveServerWellFormed(hash, ring0, nodes0, node);
        }
      }
    }

    /**
     * `balance`: a null or empty list is rejected before anything changes;
     * otherwise the request identifier `uuid` (a fresh random UUID in the
     * source) is looked up with `getServer`. On a well-formed balancer the
     * lookup always succeeds, and with plain node names it names a real node.
     */
    method Balance(addressList: Option<seq<string>>, uuid: string) returns (r: Result<string, BalanceError>)
      modifies this
      ensures addressList.None? || addressList.value == [] ==>
        r == Err(IllegalArgument) && shards == old(shards) && realNodes == old(realNodes)
      ensures addressList.Some? && addressList.value != [] ==>
        r == Select(shards, hash(uuid)) &&
        (old(shards) != map[] ==> shards == old(shards) && realNodes == old(realNodes)) &&
        (old(shards) == map[] ==>
          shards == AddServers(hash, map[], addressList.value) && realNodes == old(realNodes) + addressList.value)
      ensures old(Valid()) ==> Valid()
      ensures old(Valid()) && addressList.Some? && addressList.value != [] ==> r.Ok?
      ensures old(Valid()) && r.Ok? && (forall n | n in realNodes :: PlainName(n)) ==> r.value in realNodes
    {
      if addressList.None? || addressList.value == [] {
        return Err(IllegalArgument);
      }
      ghost var empty := shards == map[];
      r := GetServer(uuid, addressList.value);
      if empty {
        AddServersNonEmpty(hash, map[], addressList.value);
      }
      if Valid() && shards != map[] {
        SelectReturnsRealNode(hash, shards, realNodes, hash(uuid));
      }
    }
  }

  /**
   * Once the ring is built, `balance` ignores its argument: a balancer
   * initialised with ["a"] sends every request to "a", also when later asked
   * to choose among other addresses, since `getServer` only builds an empty ring.
   */
  lemma StaleRingIgnoresAddressList(hash: string -> int, h: int)
    ensures Select(AddServers(hash, map[], ["a"]), h) == Ok("a")
  {
    var ring := AddServers(hash, map[], ["a"]);
    WellFormedRingGrow(hash, map[], [], ["a"]);
    AddServersWellFormed(hash, map[], ["a"], ["a"]);
    AddServersNonEmpty(hash, map[], ["a"]);
    SelectReturnsRealNode(hash, ring, ["a"], h);
  }

  /**
   * Two `balance` calls on a new balancer: the first, with ["a"], builds the
   * ring; the second, with ["b"], still answers "a".
   */
  method StaleRingScenario(uuid: string) returns (first: Result<string, BalanceError>, second: Result<string, BalanceError>)
    ensures first == Ok("a") && second == Ok("a")
  {
    var balancer := new ConsistencyHashBalance();
    first := balancer.Balance(Some(["a"]), uuid);
    AddServersNonEmpty(balancer.hash, map[], ["a"]);
    StaleRingIgnoresAddressList(balancer.hash, balancer.hash(uuid));
    second := balancer.Balance(Some(["b"]), uuid);
  }
}
