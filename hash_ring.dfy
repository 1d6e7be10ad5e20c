/**
 * The hash ring of the consistent-hash balancer, as values: the virtual-node
 * labels, the clockwise lookup, the "&&" strip that recovers a real node,
 * and the ring that `init`, `addNode` and `delNode` leave behind. The class
 * that owns and mutates a ring is in module ConsistencyHash.
 *
 * The ring functions take the string hash as a parameter `hash`; every
 * property below holds for any hash, and the balancer instantiates it with
 * FnvHash.Hash.
 */
module HashRing {
  import opened Wrappers
  import opened TreeMaps

  /** Ring positions per real node. */
  const VIRTUAL_NUM: nat := 5

  /** What the balancer puts between a real node's name and the virtual node's number. */
  const VN_MARK: string := "&&VN"

  /** The exceptions the balancer raises. */
  datatype BalanceError =
    | IllegalArgument         // `balance` on a null or empty address list
    | NoSuchElement           // `firstKey()` on an empty ring
    | StringIndexOutOfBounds  // `substring(0, -1)` on a ring value without "&&"

  /** The decimal digit of a virtual-node number, as Java's string concatenation writes it. */
  function Digit(i: nat): (c: char)
    requires i < 10
    ensures '0' <= c <= '9' && c as int - '0' as int == i
  {
    ('0' as int + i) as char
  }

  /** The label of virtual node `i` of `server`: `server + "&&VN" + i`. */
  function VirtualLabel(server: string, i: nat): (v: string)
    requires i < VIRTUAL_NUM
    ensures IsVirtual(v) && Owner(v) == server && Index(v) == i
  {
    var v := server + VN_MARK + [Digit(i)];
    assert v[|v| - 5 .. |v| - 1] == VN_MARK;
    assert v[..|v| - 5] == server;
    v
  }

  /** `v` has the shape of a virtual-node label: a name, then "&&VN", then a digit below VIRTUAL_NUM. */
  predicate IsVirtual(v: string)
  {
    |v| >= 5 && v[|v| - 5 .. |v| - 1] == VN_MARK && '0' <= v[|v| - 1] <= '4'
  }

  /** The real-node name a virtual label was built from. */
  function Owner(v: string): string
    requires IsVirtual(v)
  {
    v[..|v| - 5]
  }

  /** The virtual-node number a virtual label was built from. */
  function Index(v: string): (i: nat)
    requires IsVirtual(v)
    ensures i < VIRTUAL_NUM
  {
    v[|v| - 1] as int - '0' as int
  }

  /** Taking a label apart and building it again gives the same label. */
  lemma LabelRoundTrip(v: string)
    requires IsVirtual(v)
    ensures v == VirtualLabel(Owner(v), Index(v))
  {
    var w := VirtualLabel(Owner(v), Index(v));
    assert |w| == |v|;
    forall j | 0 <= j < |v|
      ensures w[j] == v[j]
    {
      if j >= |v| - 5 && j < |v| - 1 {
        assert w[j] == VN_MARK[j - (|v| - 5)] == v[j];
      }
    }
  }

  /** The string `s` holds "&&" at position `j`. */
  predicate AmpPairAt(s: string, j: int)
  {
    0 <= j && j + 1 < |s| && s[j] == '&' && s[j + 1] == '&'
  }

  /** `s.indexOf("&&", from)`: the first position at or after `from` where "&&" starts, or -1 (None). */
  function IndexOfAmpPair(s: string, from: nat): (r: Option<nat>)
    decreases |s| - from
    ensures r.Some? ==> from <= r.value && AmpPairAt(s, r.value)
    ensures r.Some? ==> forall j | from <= j < r.value :: !AmpPairAt(s, j)
    ensures r.None? ==> forall j | from <= j :: !AmpPairAt(s, j)
  {
    if from + 1 >= |s| then None
    else if AmpPairAt(s, from) then Some(from)
    else IndexOfAmpPair(s, from + 1)
  }

  /**
   * `v.substring(0, v.indexOf("&&"))`: the part of a ring value before its
   * first "&&". Without one, `indexOf` gives -1 and `substring` throws.
   */
  function RealNodeOf(v: string): (r: Result<string, BalanceError>)
    ensures r.Ok? ==> |r.value| <= |v| && v[..|r.value|] == r.value && AmpPairAt(v, |r.value|)
    ensures r.Ok? ==> forall j | 0 <= j < |r.value| :: !AmpPairAt(v, j)
    ensures r.Err? ==> r.error == StringIndexOutOfBounds && forall j | 0 <= j :: !AmpPairAt(v, j)
  {
    match IndexOfAmpPair(v, 0)
    case Some(j) => Ok(v[..j])
    case None => Err(StringIndexOutOfBounds)
  }

  /** A name the strip gives back whole: every '&' in it is followed by a character other than '&'. */
  predicate PlainName(s: string)
  {
    forall j | 0 <= j < |s| && s[j] == '&' :: j + 1 < |s| && s[j + 1] != '&'
  }

  /** Every virtual label strips to some prefix; the label of a plain name strips back to that name. */
  lemma StripVirtualLabel(v: string)
    requires IsVirtual(v)
    ensures RealNodeOf(v).Ok?
    ensures PlainName(Owner(v)) ==> RealNodeOf(v) == Ok(Owner(v))
  {
    var n := |v| - 5;
    assert AmpPairAt(v, n);
    if PlainName(Owner(v)) {
      var r := RealNodeOf(v).value;
      forall j | 0 <= j < n
        ensures !AmpPairAt(v, j)
      {
        assert v[j] == Owner(v)[j];
        if v[j] == '&' && j + 1 < n {
          assert v[j + 1] == Owner(v)[j + 1];
        }
      }
      assert |r| == n;
    }
  }

  /** A name ending in '&' loses that character: "a&&&VN0" strips to "a", not "a&". */
  lemma TrailingAmpersandIsLost()
    ensures RealNodeOf(VirtualLabel("a&", 0)) == Ok("a")
  {
    var v := VirtualLabel("a&", 0);
    assert v == "a&&&VN0";
    assert AmpPairAt(v, 1) && !AmpPairAt(v, 0);
    assert IndexOfAmpPair(v, 0) == IndexOfAmpPair(v, 1) == Some(1);
    assert v[..1] == "a";
  }

  /** A ring: hash position to the virtual-node label stored there. */
  type Ring = map<int, string>

  /**
   * The key `getServer` lands on for hash `h`: the smallest key at or above
   * `h`, or, when every key is below `h`, the smallest key of all (the ring
   * wraps around).
   */
  function Successor(ring: Ring, h: int): (k: int)
    requires ring != map[]
    ensures k in ring
    ensures k >= h ==> forall j | j in ring && j >= h :: k <= j
    ensures k < h ==> forall j | j in ring :: j < h && k <= j
  {
    match CeilingKey(ring, h)
    case Some(k) => k
    case None => FirstKey(ring)
  }

  /** What `getServer` returns for hash `h` once the ring is in place. */
  function Select(ring: Ring, h: int): (r: Result<string, BalanceError>)
    ensures r == Err(NoSuchElement) <==> ring == map[]
  {
    if ring == map[] then Err(NoSuchElement) else RealNodeOf(ring[Successor(ring, h)])
  }

  /** Two hashes with no ring key in `[h1, h2)` land on the same key, hence on the same server. */
  lemma SameArcSameServer(ring: Ring, h1: int, h2: int)
    requires ring != map[] && h1 <= h2
    requires forall j | j in ring :: !(h1 <= j < h2)
    ensures Successor(ring, h1) == Successor(ring, h2)
    ensures Select(ring, h1) == Select(ring, h2)
  {
    var k1, k2 := Successor(ring, h1), Successor(ring, h2);
    if k1 >= h1 {
      assert k1 >= h2;
      assert k2 >= h2 && k2 <= k1;
    }
  }

  /**
   * The arc that wraps: a hash at or below every key and a hash above every
   * key both land on the smallest key, hence on the same server.
   */
  lemma WrappedArcSameServer(ring: Ring, h1: int, h2: int)
    requires ring != map[]
    requires forall j | j in ring :: h1 <= j < h2
    ensures Successor(ring, h1) == Successor(ring, h2)
    ensures Select(ring, h1) == Select(ring, h2)
  {
  }

  /** Every key is the hash of the label stored under it, and that label is a virtual label of one of `nodes`. */
  predicate WellFormedRing(hash: string -> int, ring: Ring, nodes: seq<string>)
  {
    forall k | k in ring :: k == hash(ring[k]) && IsVirtual(ring[k]) && Owner(ring[k]) in nodes
  }

  /** Listing more nodes keeps a ring well formed. */
  lemma WellFormedRingGrow(hash: string -> int, ring: Ring, nodes: seq<string>, more: seq<string>)
    requires WellFormedRing(hash, ring, nodes) && forall n | n in nodes :: n in more
    ensures WellFormedRing(hash, ring, more)
  {
  }

  /** On a well-formed ring the strip never throws, and with plain names it yields one of the real nodes. */
  lemma SelectReturnsRealNode(hash: string -> int, ring: Ring, nodes: seq<string>, h: int)
    requires WellFormedRing(hash, ring, nodes) && ring != map[]
    ensures Select(ring, h).Ok?
    ensures (forall n | n in nodes :: PlainName(n)) ==>
      Select(ring, h).value in nodes && Select(ring, h).value == Owner(ring[Successor(ring, h)])
  {
    StripVirtualLabel(ring[Successor(ring, h)]);
  }

  /** The hash keys of virtual nodes 0 .. n-1 of `server`. */
  function LabelKeys(hash: string -> int, server: string, n: nat): set<int>
    requires n <= VIRTUAL_NUM
  {
    if n == 0 then {} else LabelKeys(hash, server, n - 1) + {hash(VirtualLabel(server, n - 1))}
  }

  /** The key of virtual node `i` is among the first `n` label keys whenever `i < n`. */
  lemma {:induction false} LabelKeyIn(hash: string -> int, server: string, i: nat, n: nat)
    requires i < n <= VIRTUAL_NUM
    ensures hash(VirtualLabel(server, i)) in LabelKeys(hash, server, n)
  {
    if i < n - 1 {
      LabelKeyIn(hash, server, i, n - 1);
    }
  }

  /** The labels of virtual nodes 0 .. n-1 of `server`. */
  function Labels(server: string, n: nat): set<string>
    requires n <= VIRTUAL_NUM
  {
    if n == 0 then {} else Labels(server, n - 1) + {VirtualLabel(server, n - 1)}
  }

  /** Every label of `server` is a virtual label owned by `server`. */
  lemma {:induction false} LabelsOwned(server: string, n: nat)
    requires n <= VIRTUAL_NUM
    ensures forall v | v in Labels(server, n) :: IsVirtual(v) && Owner(v) == server
  {
    if n > 0 {
      LabelsOwned(server, n - 1);
    }
  }

  /** The ring after `put`ting virtual nodes 0 .. n-1 of `server`, in that order. */
  function PutVirtualNodes(hash: string -> int, ring: Ring, server: string, n: nat): Ring
    requires n <= VIRTUAL_NUM
  {
    if n == 0 then ring
    else
      var lbl := VirtualLabel(server, n - 1);
      PutVirtualNodes(hash, ring, server, n - 1)[hash(lbl) := lbl]
  }

  /** Putting a server's virtual nodes removes no key and adds exactly the hash key of each of them. */
  lemma {:induction false} PutVirtualNodesKeys(hash: string -> int, ring: Ring, server: string, n: nat)
    requires n <= VIRTUAL_NUM
    ensures PutVirtualNodes(hash, ring, server, n).Keys == ring.Keys + LabelKeys(hash, server, n)
  {
    if n > 0 {
      PutVirtualNodesKeys(hash, ring, server, n - 1);
    }
  }

  /**
   * After putting a server's virtual nodes, each key either keeps its old
   * label or holds one of the server's labels at that label's own hash; and
   * every key one of those labels hashes to holds one of them, whatever the
   * ring held there before (a later `put` overwrites).
   */
  lemma {:induction false} PutVirtualNodesNew(hash: string -> int, ring: Ring, server: string, n: nat)
    requires n <= VIRTUAL_NUM
    ensures forall k | k in PutVirtualNodes(hash, ring, server, n) ::
      (k in ring && PutVirtualNodes(hash, ring, server, n)[k] == ring[k]) ||
      (k == hash(PutVirtualNodes(hash, ring, server, n)[k]) && PutVirtualNodes(hash, ring, server, n)[k] in Labels(server, n))
    ensures forall k | k in LabelKeys(hash, server, n) ::
      k in PutVirtualNodes(hash, ring, server, n) &&
      PutVirtualNodes(hash, ring, server, n)[k] in Labels(server, n) &&
      hash(PutVirtualNodes(hash, ring, server, n)[k]) == k
  {
    if n > 0 {
      PutVirtualNodesNew(hash, ring, server, n - 1);
    }
  }

  /** Putting a server's virtual nodes keeps the label under every key that is none of their hashes. */
  lemma {:induction false} PutVirtualNodesKeeps(hash: string -> int, ring: Ring, server: string, n: nat)
    requires n <= VIRTUAL_NUM
    ensures forall k | k in ring && k !in LabelKeys(hash, server, n) ::
      k in PutVirtualNodes(hash, ring, server, n) && PutVirtualNodes(hash, ring, server, n)[k] == ring[k]
  {
    if n > 0 {
      PutVirtualNodesKeeps(hash, ring, server, n - 1);
    }
  }

  /** Putting the virtual nodes of a listed server keeps a ring well formed. */
  lemma PutVirtualNodesWellFormed(hash: string -> int, ring: Ring, nodes: seq<string>, server: string)
    requires WellFormedRing(hash, ring, nodes) && server in nodes
    ensures WellFormedRing(hash, PutVirtualNodes(hash, ring, server, VIRTUAL_NUM), nodes)
  {
    PutVirtualNodesNew(hash, ring, server, VIRTUAL_NUM);
    LabelsOwned(server, VIRTUAL_NUM);
  }

  /** The ring after `init` over `servers`: each server's virtual nodes put in list order. */
  function AddServers(hash: string -> int, ring: Ring, servers: seq<string>): Ring
  {
    if servers == [] then ring
    else PutVirtualNodes(hash, AddServers(hash, ring, servers[..|servers| - 1]), servers[|servers| - 1], VIRTUAL_NUM)
  }

  /** The hash keys of every virtual node of every server in `servers`. */
  function ServerKeys(hash: string -> int, servers: seq<string>): set<int>
  {
    if servers == [] then {}
    else ServerKeys(hash, servers[..|servers| - 1]) + LabelKeys(hash, servers[|servers| - 1], VIRTUAL_NUM)
  }

  /** A listed server's label keys are among the keys of the list. */
  lemma {:induction false} ServerKeysIn(hash: string -> int, servers: seq<string>, s: string)
    requires s in servers
    ensures LabelKeys(hash, s, VIRTUAL_NUM) <= ServerKeys(hash, servers)
  {
    var init := servers[..|servers| - 1];
    if s != servers[|servers| - 1] {
      assert servers == init + [servers[|servers| - 1]];
      ServerKeysIn(hash, init, s);
    }
  }

  /** The keys after `init`: the old keys and the hash key of every virtual node of every listed server. */
  lemma {:induction false} AddServersKeys(hash: string -> int, ring: Ring, servers: seq<string>)
    ensures AddServers(hash, ring, servers).Keys == ring.Keys + ServerKeys(hash, servers)
  {
    if servers != [] {
      var init := servers[..|servers| - 1];
      AddServersKeys(hash, ring, init);
      PutVirtualNodesKeys(hash, AddServers(hash, ring, init), servers[|servers| - 1], VIRTUAL_NUM);
    }
  }

  /**
   * After `init`, each key either keeps its old label or holds a label of a
   * listed server at that label's own hash; the keys of the last listed
   * server's labels hold that server's labels, overwriting any earlier one.
   */
  lemma {:induction false} AddServersNew(hash: string -> int, ring: Ring, servers: seq<string>)
    ensures forall k | k in AddServers(hash, ring, servers) ::
      (k in ring && AddServers(hash, ring, servers)[k] == ring[k]) ||
      (k == hash(AddServers(hash, ring, servers)[k]) && IsVirtual(AddServers(hash, ring, servers)[k]) &&
       Owner(AddServers(hash, ring, servers)[k]) in servers)
    ensures servers != [] ==>
      forall k | k in LabelKeys(hash, servers[|servers| - 1], VIRTUAL_NUM) ::
        k in AddServers(hash, ring, servers) &&
        IsVirtual(AddServers(hash, ring, servers)[k]) &&
        Owner(AddServers(hash, ring, servers)[k]) == servers[|servers| - 1] &&
        hash(AddServers(hash, ring, servers)[k]) == k
  {
    if servers != [] {
      var init := servers[..|servers| - 1];
      var last := servers[|servers| - 1];
      AddServersNew(hash, ring, init);
      PutVirtualNodesNew(hash, AddServers(hash, ring, init), last, VIRTUAL_NUM);
      LabelsOwned(last, VIRTUAL_NUM);
      assert forall s | s in init :: s in servers;
    }
  }

  /**
   * Once a server with a plain name has put its virtual nodes, a lookup at the
   * hash of any of its labels returns that server, even where the key collided
   * with another server's label before.
   */
  lemma PutServerSelectsAtLabelKey(hash: string -> int, ring: Ring, server: string, i: nat)
    requires PlainName(server) && i < VIRTUAL_NUM
    ensures Select(PutVirtualNodes(hash, ring, server, VIRTUAL_NUM), hash(VirtualLabel(server, i))) == Ok(server)
  {
    var r := PutVirtualNodes(hash, ring, server, VIRTUAL_NUM);
    var k := hash(VirtualLabel(server, i));
    LabelKeyIn(hash, server, i, VIRTUAL_NUM);
    PutVirtualNodesNew(hash, ring, server, VIRTUAL_NUM);
    LabelsOwned(server, VIRTUAL_NUM);
    assert Successor(r, k) == k;
    StripVirtualLabel(r[k]);
  }

  /** `init` over a non-empty list leaves a non-empty ring. */
  lemma AddServersNonEmpty(hash: string -> int, ring: Ring, servers: seq<string>)
    requires servers != []
    ensures AddServers(hash, ring, servers) != map[]
  {
    var last := servers[|servers| - 1];
    PutVirtualNodesKeys(hash, AddServers(hash, ring, servers[..|servers| - 1]), last, VIRTUAL_NUM);
    LabelKeyIn(hash, last, 0, VIRTUAL_NUM);
  }

  /** Adding listed servers' virtual nodes keeps a ring well formed over a node list that includes them. */
  lemma AddServersWellFormed(hash: string -> int, ring: Ring, nodes: seq<string>, servers: seq<string>)
    requires WellFormedRing(hash, ring, nodes) && forall s | s in servers :: s in nodes
    ensures WellFormedRing(hash, AddServers(hash, ring, servers), nodes)
  {
    AddServersNew(hash, ring, servers);
  }

  /** The ring after `remove`ing the hash keys of virtual nodes 0 .. n-1 of `server`. */
  function RemoveVirtualNodes(hash: string -> int, ring: Ring, server: string, n: nat): Ring
    requires n <= VIRTUAL_NUM
  {
    if n == 0 then ring
    else RemoveVirtualNodes(hash, ring, server, n - 1) - {hash(VirtualLabel(server, n - 1))}
  }

  /** Removing a server's virtual nodes drops exactly their hash keys. */
  lemma {:induction false} RemoveVirtualNodesSpec(hash: string -> int, ring: Ring, server: string, n: nat)
    requires n <= VIRTUAL_NUM
    ensures RemoveVirtualNodes(hash, ring, server, n) == ring - LabelKeys(hash, server, n)
  {
    if n > 0 {
      RemoveVirtualNodesSpec(hash, ring, server, n - 1);
    }
  }

  /**
   * On a ring whose keys are the hashes of their labels, removing a server's
   * virtual nodes leaves no label of that server (it may also drop another
   * server's label that collided with one of them).
   */
  lemma RemovedServerHasNoLabels(hash: string -> int, ring: Ring, nodes: seq<string>, server: string)
    requires WellFormedRing(hash, ring, nodes)
    ensures forall k | k in RemoveVirtualNodes(hash, ring, server, VIRTUAL_NUM) ::
      IsVirtual(RemoveVirtualNodes(hash, ring, server, VIRTUAL_NUM)[k]) &&
      Owner(RemoveVirtualNodes(hash, ring, server, VIRTUAL_NUM)[k]) != server
  {
    RemoveVirtualNodesSpec(hash, ring, server, VIRTUAL_NUM);
    forall k | k in RemoveVirtualNodes(hash, ring, server, VIRTUAL_NUM)
      ensures IsVirtual(ring[k]) && Owner(ring[k]) != server
    {
      LabelRoundTrip(ring[k]);
      LabelKeyIn(hash, Owner(ring[k]), Index(ring[k]), VIRTUAL_NUM);
    }
  }

  /** `indexOf(Object)` on a list that holds `x`: the position of its first occurrence. */
  function FirstIndex(s: seq<string>, x: string): (i: nat)
    requires x in s
    ensures i < |s| && s[i] == x && x !in s[..i]
  {
    if s[0] == x then 0
    else
      var i := 1 + FirstIndex(s[1..], x);
      assert s[..i] == [s[0]] + s[1..][..i - 1];
      i
  }

  /** `LinkedList.remove(Object)`: drops the first occurrence of `x`, if any. */
  function RemoveFirst(s: seq<string>, x: string): (r: seq<string>)
    ensures x !in s ==> r == s
    ensures x in s ==> |r| == |s| - 1
    ensures multiset(r) == multiset(s) - multiset{x}
    ensures forall y | y in r :: y in s
    ensures forall y | y in s && y != x :: y in r
  {
    if s == [] then []
    else
      assert s == [s[0]] + s[1..];
      if s[0] == x then s[1..]
      else [s[0]] + RemoveFirst(s[1..], x)
  }

  /** The list `remove` leaves is the old one with exactly its first `x` cut out, the rest in order. */
  lemma {:induction false} RemoveFirstIsSplice(s: seq<string>, x: string)
    requires x in s
    ensures RemoveFirst(s, x) == s[..FirstIndex(s, x)] + s[FirstIndex(s, x) + 1..]
  {
    if s[0] != x {
      var t := s[1..];
      RemoveFirstIsSplice(t, x);
      var i := FirstIndex(t, x);
      assert FirstIndex(s, x) == i + 1;
      SpliceTail(s, i);
    }
  }

  /** Cutting position `i + 1` out of `s` is keeping its head and cutting position `i` out of its tail. */
  lemma SpliceTail(s: seq<string>, i: nat)
    requires i + 1 < |s|
    ensures s[..i + 1] + s[i + 2..] == [s[0]] + (s[1..][..i] + s[1..][i + 1..])
  {
    assert s[..i + 1] == [s[0]] + s[1..][..i];
    assert s[i + 2..] == s[1..][i + 1..];
  }

  /** Deleting a server keeps the ring well formed over the node list with one occurrence of it removed. */
  lemma RemoveServerWellFormed(hash: string -> int, ring: Ring, nodes: seq<string>, server: string)
    requires WellFormedRing(hash, ring, nodes)
    ensures WellFormedRing(hash, RemoveVirtualNodes(hash, ring, server, VIRTUAL_NUM), RemoveFirst(nodes, server))
  {
    RemoveVirtualNodesSpec(hash, ring, server, VIRTUAL_NUM);
    RemovedServerHasNoLabels(hash, ring, nodes, server);
  }

  /** After a server is deleted from a well-formed ring over plain names, no lookup returns it. */
  lemma DeletedServerNeverSelected(hash: string -> int, ring: Ring, nodes: seq<string>, server: string, h: int)
    requires WellFormedRing(hash, ring, nodes) && forall n | n in nodes :: PlainName(n)
    requires RemoveVirtualNodes(hash, ring, server, VIRTUAL_NUM) != map[]
    ensures Select(RemoveVirtualNodes(hash, ring, server, VIRTUAL_NUM), h).Ok?
    ensures Select(RemoveVirtualNodes(hash, ring, server, VIRTUAL_NUM), h).value != server
  {
    var after := RemoveVirtualNodes(hash, ring, server, VIRTUAL_NUM);
    RemoveVirtualNodesSpec(hash, ring, server, VIRTUAL_NUM);
    RemovedServerHasNoLabels(hash, ring, nodes, server);
    assert WellFormedRing(hash, after, nodes);
    SelectReturnsRealNode(hash, after, nodes, h);
  }
}
