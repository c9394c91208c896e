/**
 * The shared key-directory cache as it runs: host nodes under one tree, whose fields each
 * operation updates in place. Every operation is one critical section.
 */
module KeyCache {
  import opened Bytes
  import opened KeyOrder
  import opened KeyZone
  import opened RbFacts
  import opened RbOrder
  import opened RbTree
  import RbShape

  /** One allocated node: its host never changes. */
  datatype HostCell = HostCell(host: bytes, node: Node)

  type Cells = map<nat, HostCell>

  /** The tree holds exactly the cells, under the right keys, and `at` finds each host's one. */
  ghost predicate Filed(cells: Cells, at: map<bytes, nat>, nodes: seq<nat>, key: map<nat, (nat, bytes)>,
                        hash: bytes -> nat) {
    && (forall i :: i in nodes <==> i in cells)
    && (forall i :: i in cells ==> i in key && key[i] == (hash(cells[i].host), cells[i].host))
    && (forall h :: h in at ==> at[h] in cells && cells[at[h]].host == h)
    && (forall i :: i in cells ==> cells[i].host in at && at[cells[i].host] == i)
  }

  ghost function NodesOf(cells: Cells, at: map<bytes, nat>): (m: map<bytes, Node>)
    requires forall h :: h in at ==> at[h] in cells
  {
    map h | h in at :: cells[at[h]].node
  }

  class Cache {
    const hash: bytes -> nat
    const byHost: Tree<(nat, bytes)>
    var cells: Cells
    var next: nat
    var generation: nat
    ghost var at: map<bytes, nat>

    ghost predicate Valid()
      reads this, byHost
    {
      && byHost.Valid() && byHost.less == ByHash
      && Filed(cells, at, byHost.Nodes(), byHost.key, hash)
      && 0 < next && (forall i :: i in cells ==> 0 < i < next)
    }

    ghost function State(): Zone
      reads this, byHost
      requires Valid()
    {
      Zone(NodesOf(cells, at), generation)
    }

    constructor (hash: bytes -> nat)
      ensures Valid() && fresh(byHost) && State() == Zone(map[], 0)
    {
      ByHashOrder();
      this.hash := hash;
      cells := map[];
      next := 1;
      generation := 0;
      at := map[];
      byHost := new Tree(ByHash);
    }

    /** The host's node, or the sentinel. */
    method Find(host: bytes) returns (cn: nat)
      requires Valid()
      ensures cn != RbShape.NIL ==> host in at && at[host] == cn && cn in cells && cells[cn].host == host
      ensures cn != RbShape.NIL ==> host in State().nodes && State().nodes[host] == cells[cn].node
      ensures cn == RbShape.NIL ==> host !in State().nodes && host !in at
    {
      hide Tree.Valid, Tree.Nodes;
      ByHashOrder();
      cn := byHost.Find((hash(host), host));
      FoundCell(cells, at, byHost.Nodes(), byHost.key, hash, host, cn);
    }

    /** Rewrites the fields of one node. */
    method Write(cn: nat, n: Node)
      requires Valid() && cn in cells
      modifies `cells
      ensures Valid() && State() == old(State()).(nodes := old(State()).nodes[old(cells)[cn].host := n])
      ensures cells == old(cells)[cn := HostCell(old(cells)[cn].host, n)]
    {
      hide Tree.Valid, Tree.Nodes;
      FiledWrite(cells, at, byHost.Nodes(), byHost.key, hash, cn, n);
      cells := cells[cn := HostCell(cells[cn].host, n)];
    }

    /** An expired node that is not being fetched, the first in tree order. */
    method FindVictim(now: int) returns (victim: nat)
      requires Valid()
      ensures victim != RbShape.NIL ==> victim in cells && Evictable(cells[victim].node, now)
      ensures victim == RbShape.NIL ==> forall h :: h in State().nodes ==> !Evictable(State().nodes[h], now)
    {
      hide Tree.Valid, Tree.Nodes;
      var all := cells;
      victim := byHost.FirstOf(i => i in all && Evictable(all[i].node, now));
      var evictable := i => i in all && Evictable(all[i].node, now);
      VictimCell(cells, at, byHost.Nodes(), byHost.key, hash, evictable, now, victim);
    }

    /** Frees a node and its key set. */
    method Evict(victim: nat)
      requires Valid() && victim in cells
      modifies this, byHost
      ensures Valid() && State() == old(State()).(nodes := old(State()).nodes - {old(cells)[victim].host})
      ensures cells == old(cells) - {victim} && at == old(at) - {old(cells)[victim].host}
    {
      hide Tree.Valid, Tree.Nodes, Cut, Filed, NodesOf;
      ghost var nodes, key := byHost.Nodes(), byHost.key;
      FiledHas(cells, at, nodes, key, hash, victim);
      ghost var host := cells[victim].host;
      byHost.Delete(victim);
      FiledWithout(cells, at, nodes, key, hash, victim, byHost.Nodes());
      cells := cells - {victim};
      at := at - {host};
    }

    method LinkNew(host: bytes) returns (cn: nat)
      requires Valid() && host !in at
      modifies this, byHost
      ensures Valid() && State() == old(State()).(nodes := old(State()).nodes[host := FRESH])
      ensures cn != RbShape.NIL && cn in cells && cells[cn] == HostCell(host, FRESH) && host in at && at[host] == cn
    {
      hide Tree.Valid, Tree.Nodes, InsertAt, Sorted, Filed, NodesOf, ByHash;
      ghost var nodes, key := byHost.Nodes(), byHost.key;
      cn := next;
      FiledHas(cells, at, nodes, key, hash, cn);
      byHost.NodesOnce();
      SortedKeyed(nodes, key, ByHash);
      byHost.Insert(cn, (hash(host), host));
      InsertAtHas(nodes, Place(nodes, key, (hash(host), host), ByHash), cn);
      FiledWith(cells, at, nodes, key, hash, cn, host, byHost.Nodes());
      cells := cells[cn := HostCell(host, FRESH)];
      at := at[host := cn];
      next := next + 1;
    }

    /** A node for a new host; when memory is short, one expired node is given up and the attempt repeated. */
    method AllocNode(host: bytes, now: int, room: bool, roomAfter: bool) returns (cn: nat, ghost victim: Option<bytes>)
      requires Valid() && host !in at
      modifies this, byHost
      ensures Valid() && FindsVictim(old(State()), now, Memory(room, roomAfter, true, true, victim))
      ensures (State(), cn != RbShape.NIL) == KeyZone.AllocNode(old(State()), host,
        Memory(room, roomAfter, true, true, victim))
      ensures cn != RbShape.NIL ==> cn in cells && cells[cn] == HostCell(host, FRESH) && host in at && at[host] == cn
    {
      hide Tree.Valid, Filed, Evictable;
      victim := AnyVictim(State(), now);
      TruthfulVictim(State(), now, Memory(room, roomAfter, true, true, victim));
      if room {
        cn := LinkNew(host);
        return;
      }
      var v := FindVictim(now);
      victim := if v == RbShape.NIL then None else Some(cells[v].host);
      VictimHost(cells, at, byHost.Nodes(), byHost.key, hash, v);
      if v != RbShape.NIL {
        HostNode(cells, at, byHost.Nodes(), byHost.key, hash, cells[v].host);
        assert State().nodes[cells[v].host] == cells[v].node;
      }
      ghost var z := State();
      assert FindsVictim(z, now, Memory(room, roomAfter, true, true, victim));
      cn := RbShape.NIL;
      if v != RbShape.NIL {
        Evict(v);
        if roomAfter {
          cn := LinkNew(host);
        }
      }
    }

    // ----- The operations -----

    /** The cached key set, or the right to fetch one. Memory is asked for with the answers given. */
    method Lookup(host: bytes, now: int, room: bool, roomAfter: bool, copy: bool) returns (f: Found, ghost m: Memory)
      requires Valid()
      modifies this, byHost
      ensures m.node == room && m.nodeAfter == roomAfter && m.copy == copy
      ensures Valid() && FindsVictim(old(State()), now, m) && (State(), f) == KeyZone.Lookup(old(State()), host, now, m)
    {
      hide Tree.Valid, Filed, Evictable, FindsVictim, NodesOf, KeyZone.AllocNode;
      m := Memory(room, roomAfter, true, copy, AnyVictim(State(), now));
      TruthfulVictim(State(), now, m);
      var cn := Find(host);
      if cn != RbShape.NIL && cells[cn].node.expiresAt > now {
        f := Answer(cells[cn].node, Hit, copy, m);
        return;
      }
      if cn != RbShape.NIL && HeldAt(cells[cn].node, now) {
        f := Answer(cells[cn].node, Busy, copy, m);
        return;
      }
      if cn == RbShape.NIL {
        ghost var victim;
        cn, victim := AllocNode(host, now, room, roomAfter);
        m := m.(victim := victim);
        SameRoom(old(State()), host, now, m, Memory(room, roomAfter, true, true, victim));
        if cn == RbShape.NIL {
          f := Found(Unavailable, [], 0);
          return;
        }
        HostNode(cells, at, byHost.Nodes(), byHost.key, hash, host);
        Write(cn, cells[cn].node.(fetching := true, fetchingSince := now));
        f := Found(Claimed, [], 0);
        return;
      }
      Write(cn, cells[cn].node.(fetching := true, fetchingSince := now));
      f := Found(Claimed, [], 0);
    }

    /** Copies a key set out of shared memory. */
    static method Answer(n: Node, status: Status, copy: bool, ghost m: Memory) returns (f: Found)
      requires m.copy == copy && (status == Hit || status == Busy)
      ensures f == Copy(n, status, m)
    {
      if n.jwks == [] {
        return Found(if status == Hit then Negative else status, [], 0);
      }
      if !copy {
        return Found(CopyFailed, [], 0);
      }
      return Found(status, n.jwks, n.generation);
    }

    method ClaimRotation(host: bytes, now: int, retryTtl: int) returns (ok: bool)
      requires Valid()
      modifies `cells
      ensures Valid() && (State(), ok) == KeyZone.ClaimRotation(old(State()), host, now, retryTtl)
    {
      hide Tree.Valid, Filed, NodesOf;
      var cn := Find(host);
      if cn == RbShape.NIL || cells[cn].node.fetching {
        return false;
      }
      if cells[cn].node.forcedAt != 0 && now - cells[cn].node.forcedAt < retryTtl {
        return false;
      }
      ghost var z := State();
      Write(cn, cells[cn].node.(fetching := true, fetchingSince := now, forcedAt := now));
      OverwriteNode(z.nodes, host, z.nodes[host].(fetching := true, fetchingSince := now), State().nodes[host]);
      ok := true;
    }

    method Store(host: bytes, jwks: bytes, expiresAt: int, now: int, retryTtl: int, room: bool, roomAfter: bool,
                 keys: bool)
        returns (g: nat, ghost m: Memory)
      requires Valid()
      modifies this, byHost
      ensures m.node == room && m.nodeAfter == roomAfter && m.keys == keys
      ensures Valid() && FindsVictim(old(State()), now, m)
      ensures (State(), g) == KeyZone.Store(old(State()), host, jwks, expiresAt, now, retryTtl, m)
    {
      hide Tree.Valid, Filed, Evictable, FindsVictim, NodesOf, KeyZone.AllocNode;
      m := Memory(room, roomAfter, keys, true, AnyVictim(State(), now));
      TruthfulVictim(State(), now, m);
      var cn := Find(host);
      if cn == RbShape.NIL {
        ghost var victim;
        cn, victim := AllocNode(host, now, room, roomAfter);
        m := m.(victim := victim);
        SameRoom(old(State()), host, now, m, Memory(room, roomAfter, true, true, victim));
        if cn == RbShape.NIL {
          return 0, m;
        }
        HostNode(cells, at, byHost.Nodes(), byHost.key, hash, host);
      }
      if !keys {
        Write(cn, cells[cn].node.(fetching := false, expiresAt := now + retryTtl));
        return 0, m;
      }
      generation := generation + 1;
      Write(cn, cells[cn].node.(jwks := jwks, expiresAt := expiresAt, fetching := false, generation := generation));
      g := generation;
    }

    method Release(host: bytes, retryAt: int)
      requires Valid()
      modifies `cells
      ensures Valid() && State() == KeyZone.Release(old(State()), host, retryAt)
    {
      hide Tree.Valid, Filed, NodesOf;
      var cn := Find(host);
      if cn != RbShape.NIL {
        Write(cn, cells[cn].node.(fetching := false, expiresAt := retryAt));
      }
    }
  }

  lemma HostNode(cells: Cells, at: map<bytes, nat>, nodes: seq<nat>, key: map<nat, (nat, bytes)>, hash: bytes -> nat,
                 host: bytes)
    requires Filed(cells, at, nodes, key, hash) && host in at
    ensures (forall h :: h in at ==> at[h] in cells) && host in NodesOf(cells, at)
      && NodesOf(cells, at)[host] == cells[at[host]].node
  {
  }

  lemma OverwriteNode(nodes: map<bytes, Node>, host: bytes, a: Node, b: Node)
    ensures nodes[host := a][host := b] == nodes[host := b]
  {
  }

  /** Some truthful answer of the walk for a victim. */
  ghost function AnyVictim(z: Zone, now: int): (v: Option<bytes>) {
    if exists h :: h in z.nodes && Evictable(z.nodes[h], now) then
      var h :| h in z.nodes && Evictable(z.nodes[h], now);
      Some(h)
    else None
  }

  lemma TruthfulVictim(z: Zone, now: int, m: Memory)
    requires m.victim == AnyVictim(z, now)
    ensures FindsVictim(z, now, m)
  {
    hide Evictable;
  }

  /** Only the answers about nodes matter to a node's allocation. */
  lemma SameRoom(z: Zone, host: bytes, now: int, m: Memory, n: Memory)
    requires m.node == n.node && m.nodeAfter == n.nodeAfter && m.victim == n.victim
    ensures KeyZone.AllocNode(z, host, m) == KeyZone.AllocNode(z, host, n)
    ensures FindsVictim(z, now, m) == FindsVictim(z, now, n)
  {
  }

  lemma VictimHost(cells: Cells, at: map<bytes, nat>, nodes: seq<nat>, key: map<nat, (nat, bytes)>,
                   hash: bytes -> nat, v: nat)
    requires Filed(cells, at, nodes, key, hash)
    ensures v in cells ==> cells[v].host in at && at[cells[v].host] == v
  {
  }

  lemma SortedKeyed<K>(s: seq<nat>, key: map<nat, K>, less: (K, K) -> bool)
    requires Sorted(s, key, less)
    ensures forall i :: i in s ==> i in key
  {
  }

  lemma FoundCell(cells: Cells, at: map<bytes, nat>, nodes: seq<nat>, key: map<nat, (nat, bytes)>, hash: bytes -> nat,
                  host: bytes, cn: nat)
    requires Filed(cells, at, nodes, key, hash)
    requires forall x, y :: !ByHash(x, y) && !ByHash(y, x) ==> x == y
    requires IsOrder(ByHash)
    requires cn != RbShape.NIL ==>
      cn in nodes && cn in key && !ByHash((hash(host), host), key[cn]) && !ByHash(key[cn], (hash(host), host))
    requires cn == RbShape.NIL ==>
      forall i :: i in nodes ==> i in key && (ByHash((hash(host), host), key[i]) || ByHash(key[i], (hash(host), host)))
    ensures cn != RbShape.NIL ==> host in at && at[host] == cn && cn in cells && cells[cn].host == host
    ensures cn == RbShape.NIL ==> host !in at
  {
    hide ByHash, IsOrder;
    if cn == RbShape.NIL && host in at {
      var i := at[host];
      assert key[i] == (hash(host), host);
      Irreflexive(ByHash, key[i]);
    }
  }

  lemma Irreflexive<K(!new)>(less: (K, K) -> bool, x: K)
    requires IsOrder(less)
    ensures !less(x, x)
  {
  }

  lemma FiledWrite(cells: Cells, at: map<bytes, nat>, nodes: seq<nat>, key: map<nat, (nat, bytes)>,
                   hash: bytes -> nat, cn: nat, n: Node)
    requires Filed(cells, at, nodes, key, hash) && cn in cells
    ensures var cells' := cells[cn := HostCell(cells[cn].host, n)];
      Filed(cells', at, nodes, key, hash) && NodesOf(cells', at) == NodesOf(cells, at)[cells[cn].host := n]
  {
  }

  lemma FiledHas(cells: Cells, at: map<bytes, nat>, nodes: seq<nat>, key: map<nat, (nat, bytes)>, hash: bytes -> nat,
                 cn: nat)
    requires Filed(cells, at, nodes, key, hash)
    ensures cn in cells <==> cn in nodes
  {
  }

  lemma FiledWithout(cells: Cells, at: map<bytes, nat>, nodes: seq<nat>, key: map<nat, (nat, bytes)>,
                     hash: bytes -> nat, cn: nat,
                     nodes': seq<nat>)
    requires Filed(cells, at, nodes, key, hash) && cn in cells
    requires forall i :: i in nodes' <==> i in nodes && i != cn
    ensures var h := cells[cn].host;
      && Filed(cells - {cn}, at - {h}, nodes', key - {cn}, hash)
      && NodesOf(cells - {cn}, at - {h}) == NodesOf(cells, at) - {h}
  {
  }

  lemma FiledWith(cells: Cells, at: map<bytes, nat>, nodes: seq<nat>, key: map<nat, (nat, bytes)>, hash: bytes -> nat,
                  cn: nat,
                  host: bytes, nodes': seq<nat>)
    requires Filed(cells, at, nodes, key, hash) && cn !in cells && host !in at
    requires forall i :: i in nodes' <==> i in nodes || i == cn
    ensures var cells', at', key' := cells[cn := HostCell(host, FRESH)], at[host := cn], key[cn := (hash(host), host)];
      Filed(cells', at', nodes', key', hash) && NodesOf(cells', at') == NodesOf(cells, at)[host := FRESH]
  {
  }

  lemma VictimCell(cells: Cells, at: map<bytes, nat>, nodes: seq<nat>, key: map<nat, (nat, bytes)>, hash: bytes -> nat,
                   ok: nat -> bool, now: int, victim: nat)
    requires Filed(cells, at, nodes, key, hash) && IsFirst(nodes, ok, victim)
    requires forall i :: ok(i) <==> i in cells && Evictable(cells[i].node, now)
    ensures victim != RbShape.NIL ==> victim in cells && Evictable(cells[victim].node, now)
    ensures victim == RbShape.NIL ==> forall h :: h in NodesOf(cells, at) ==> !Evictable(NodesOf(cells, at)[h], now)
  {
    if victim == RbShape.NIL {
      forall h | h in at
        ensures !Evictable(cells[at[h]].node, now)
      {
        assert at[h] in nodes;
      }
    }
  }
}
