/** Multi-level page tables built in place, with tables allocated on demand. */
module PageTables {
  import opened Wrappers
  import opened Words
  import opened Addresses
  import opened Descriptors

  /** A place in the tree of tables: the path of entries followed from a level 0 table. */
  datatype Node = Node(root: nat, path: seq<nat>)

  function Child(n: Node, i: nat): Node { Node(n.root, n.path + [i]) }

  function Parent(n: Node): Node
    requires n.path != []
  {
    Node(n.root, n.path[..|n.path| - 1])
  }

  /** The four indices a virtual address is translated by. */
  function Indices(va: nat): (ixs: seq<nat>)
    ensures |ixs| == 4
  {
    [LevelIndex(va, 0), LevelIndex(va, 1), LevelIndex(va, 2), LevelIndex(va, 3)]
  }

  lemma IndicesBound(va: nat)
    ensures forall i | 0 <= i < 4 :: Indices(va)[i] < 512
  {
    IndexValue(va, 0);
    IndexValue(va, 1);
    IndexValue(va, 2);
    IndexValue(va, 3);
  }

  function EmptyTable(): (t: seq<nat>)
    ensures |t| == 512 && forall i | 0 <= i < 512 :: t[i] == 0
  {
    seq(512, _ => 0)
  }

  type Places = map<Node, nat>

  /** Entry `i` of an upper-level table points to the table below, or is invalid if there is none. */
  ghost predicate Linked(base: nat, tables: seq<seq<nat>>, at: Places, n: Node, i: nat) {
    n in at && at[n] < |tables| && i < |tables[at[n]]|
    && tables[at[n]][i] == if Child(n, i) in at then NewTable(base, at[Child(n, i)]) else 0
  }

  ghost predicate Placed(base: nat, tables: seq<seq<nat>>, at: Places, n: Node) {
    && n in at && at[n] < |tables| && |n.path| <= 3
    && (if n.path == [] then at[n] == n.root else Parent(n) in at)
    && (|n.path| < 3 ==> forall i: nat | i < 512 :: Linked(base, tables, at, n, i))
  }

  /** The tables form a forest: distinct places hold distinct tables, linked from their parents only. */
  ghost predicate Forest(base: nat, tables: seq<seq<nat>>, at: Places) {
    && base > 0 && base % 4096 == 0 && base + 4096 * |tables| <= WORD
    && Sized(tables) && Apart(at)
    && (forall n | n in at :: Placed(base, tables, at, n))
  }

  ghost predicate Sized(tables: seq<seq<nat>>) {
    && (forall t | 0 <= t < |tables| :: |tables[t]| == 512)
    && (forall t, i | 0 <= t < |tables| && 0 <= i < 512 :: tables[t][i] < WORD)
  }

  ghost predicate Apart(at: Places) { forall n, n' | n in at && n' in at && at[n] == at[n'] :: n == n' }

  /** The level 3 descriptor stored for a path of four indices, 0 if some table is missing. */
  ghost function EntryAt(tables: seq<seq<nat>>, at: Places, root: nat, ixs: seq<nat>): nat
    requires |ixs| == 4
  {
    var n := Node(root, ixs[..3]);
    if n in at && at[n] < |tables| && ixs[3] < |tables[at[n]]| then tables[at[n]][ixs[3]] else 0
  }

  lemma PlacedOf(base: nat, tables: seq<seq<nat>>, at: Places, n: Node)
    requires Forest(base, tables, at)
    ensures n in at ==> Placed(base, tables, at, n)
    ensures forall i: nat | n in at && |n.path| < 3 && i < 512 :: Linked(base, tables, at, n, i)
    ensures forall i: nat | Child(n, i) in at :: n in at
  {
    forall i: nat | Child(n, i) in at
      ensures n in at
    {
      assert Placed(base, tables, at, Child(n, i));
      assert (n.path + [i])[..|n.path|] == n.path;
    }
  }

  lemma SameParent(n: Node, i: nat, n': Node, i': nat)
    ensures Child(n, i) == Child(n', i') ==> n == n' && i == i'
    ensures Child(n, i).path != [] && Parent(Child(n, i)) == n
  {
    assert (n.path + [i])[..|n.path|] == n.path && (n'.path + [i'])[..|n'.path|] == n'.path;
    assert (n.path + [i])[|n.path|] == i && (n'.path + [i'])[|n'.path|] == i';
  }

  /** Appending an empty table as a new root. */
  lemma AllocForest(base: nat, tables: seq<seq<nat>>, at: Places)
    requires Forest(base, tables, at) && base + 4096 * (|tables| + 1) <= WORD
    ensures Forest(base, tables + [EmptyTable()], at[Node(|tables|, []) := |tables|])
    ensures forall root, ixs | |ixs| == 4 ::
              EntryAt(tables + [EmptyTable()], at[Node(|tables|, []) := |tables|], root, ixs) == EntryAt(tables, at, root, ixs)
  {
    var r := Node(|tables|, []);
    var tables', at' := tables + [EmptyTable()], at[r := |tables|];
    PlacedOf(base, tables, at, r);
    forall n | n in at'
      ensures Placed(base, tables', at', n)
    {
      PlacedOf(base, tables, at, n);
      forall i: nat | i < 512 && |n.path| < 3
        ensures Linked(base, tables', at', n, i)
      {
        SameParent(n, i, n, i);
        assert n != r ==> Linked(base, tables, at, n, i);
      }
    }
  }

  function WithEntry(tables: seq<seq<nat>>, t: nat, i: nat, d: nat): (r: seq<seq<nat>>)
    requires t < |tables| && i < |tables[t]|
    ensures |r| == |tables|
  {
    tables[t := tables[t][..i] + [d] + tables[t][i + 1..]]
  }

  /** The tables after appending an empty one and linking it from entry `i` of table `t`. */
  function Extended(base: nat, tables: seq<seq<nat>>, t: nat, i: nat): seq<seq<nat>>
    requires t < |tables| && i < |tables[t]|
  {
    WithEntry(tables + [EmptyTable()], t, i, NewTable(base, |tables|))
  }

  /** Appending an empty table and linking it under an invalid entry of an upper-level table. */
  lemma LinkForest(base: nat, tables: seq<seq<nat>>, at: Places, n: Node, i: nat)
    requires Forest(base, tables, at) && base + 4096 * (|tables| + 1) <= WORD
    requires n in at && |n.path| < 3 && i < 512 && Child(n, i) !in at && at[n] < |tables|
    ensures Forest(base, Extended(base, tables, at[n], i), at[Child(n, i) := |tables|])
  {
    var c := Child(n, i);
    var tables', at' := Extended(base, tables, at[n], i), at[c := |tables|];
    TableValue(base, |tables|);
    ExtendedSized(base, tables, at[n], i);
    ExtendedApart(base, tables, at, c);
    hide Sized, Apart, Placed, NewTable, ConcreteTableAddress, TableAddress, Extended;
    forall n' | n' in at'
      ensures Placed(base, tables', at', n')
    {
      LinkPlaced(base, tables, at, n, i, n');
    }
  }

  lemma ExtendedSized(base: nat, tables: seq<seq<nat>>, t: nat, i: nat)
    requires Sized(tables) && t < |tables| && i < 512 && NewTable(base, |tables|) < WORD
    ensures |tables[t]| == 512 && Sized(Extended(base, tables, t, i)) && |Extended(base, tables, t, i)| == |tables| + 1
  {
    hide NewTable;
  }

  lemma ExtendedApart(base: nat, tables: seq<seq<nat>>, at: Places, c: Node)
    requires Forest(base, tables, at)
    ensures Apart(at[c := |tables|])
  {
    forall n | n in at
      ensures at[n] < |tables|
    {
      PlacedOf(base, tables, at, n);
    }
    hide Forest, Placed;
  }

  lemma LinkPlaced(base: nat, tables: seq<seq<nat>>, at: Places, n: Node, i: nat, n': Node)
    requires Forest(base, tables, at) && NewTable(base, |tables|) < WORD
    requires n in at && |n.path| < 3 && i < 512 && Child(n, i) !in at && at[n] < |tables| && |tables[at[n]]| == 512
    requires n' in at || n' == Child(n, i)
    ensures Placed(base, Extended(base, tables, at[n], i), at[Child(n, i) := |tables|], n')
  {
    var c := Child(n, i);
    var tables', at' := Extended(base, tables, at[n], i), at[c := |tables|];
    PlacedOf(base, tables, at, c);
    PlacedOf(base, tables, at, n);
    PlacedOf(base, tables, at, n');
    SameParent(n, i, n, i);
    assert n' in at && at[n'] == at[n] ==> n' == n;
    hide Forest, Sized, Apart, NewTable, Linked, Extended;
    forall j: nat | j < 512 && |n'.path| < 3
      ensures Linked(base, tables', at', n', j)
    {
      LinkLinked(base, tables, at, n, i, n', j);
    }
    hide *;
    StillPlaced(base, tables', at', n');
  }

  lemma StillPlaced(base: nat, tables: seq<seq<nat>>, at: Places, n: Node)
    requires n in at && at[n] < |tables| && |n.path| <= 3 && (if n.path == [] then at[n] == n.root else Parent(n) in at)
    requires forall j: nat | j < 512 && |n.path| < 3 :: Linked(base, tables, at, n, j)
    ensures Placed(base, tables, at, n)
  {
    hide Linked;
  }

  lemma LinkLinked(base: nat, tables: seq<seq<nat>>, at: Places, n: Node, i: nat, n': Node, j: nat)
    requires n in at && i < 512 && at[n] < |tables| && |tables[at[n]]| == 512 && j < 512 && |n'.path| < 3
    requires Child(n, i) !in at
    requires n' in at || n' == Child(n, i)
    requires n' in at ==> Linked(base, tables, at, n', j) && (at[n'] == at[n] ==> n' == n)
    requires n' == Child(n, i) ==> Child(n', j) !in at
    ensures Linked(base, Extended(base, tables, at[n], i), at[Child(n, i) := |tables|], n', j)
  {
    SameParent(n', j, n, i);
    hide NewTable;
  }

  /** A new table is empty, so linking it changes no level 3 entry. */
  lemma LinkEntries(base: nat, tables: seq<seq<nat>>, at: Places, n: Node, i: nat)
    requires Forest(base, tables, at)
    requires n in at && |n.path| < 3 && i < 512 && Child(n, i) !in at && at[n] < |tables|
    ensures forall root, ixs | |ixs| == 4 ::
              EntryAt(Extended(base, tables, at[n], i), at[Child(n, i) := |tables|], root, ixs) == EntryAt(tables, at, root, ixs)
  {
    var tables', at' := Extended(base, tables, at[n], i), at[Child(n, i) := |tables|];
    forall root, ixs | |ixs| == 4
      ensures EntryAt(tables', at', root, ixs) == EntryAt(tables, at, root, ixs)
    {
      PlacedOf(base, tables, at, Node(root, ixs[..3]));
    }
  }

  lemma StoreEntries(base: nat, tables: seq<seq<nat>>, at: Places, n: Node, i: nat, d: nat, root: nat, ixs: seq<nat>)
    requires Forest(base, tables, at) && n in at && |n.path| == 3 && i < 512 && at[n] < |tables| && |ixs| == 4
    ensures |tables[at[n]]| == 512
    ensures EntryAt(WithEntry(tables, at[n], i, d), at, root, ixs) ==
            if root == n.root && ixs == n.path + [i] then d else EntryAt(tables, at, root, ixs)
  {
    var n' := Node(root, ixs[..3]);
    PlacedOf(base, tables, at, n');
    assert Apart(at);
    hide Placed, Linked;
    assert ixs == ixs[..3] + [ixs[3]];
    SameParent(n', ixs[3], n, i);
  }

  lemma StorePlaced(base: nat, tables: seq<seq<nat>>, at: Places, n: Node, i: nat, d: nat, n': Node)
    requires Forest(base, tables, at) && n in at && |n.path| == 3 && i < 512 && at[n] < |tables| && n' in at
    ensures |tables[at[n]]| == 512
    ensures Placed(base, WithEntry(tables, at[n], i, d), at, n')
  {
    PlacedOf(base, tables, at, n');
    assert at[n'] == at[n] ==> n' == n;
    hide Forest, NewTable, Apart;
    forall j: nat | j < 512 && |n'.path| < 3
      ensures Linked(base, WithEntry(tables, at[n], i, d), at, n', j)
    {
      assert Linked(base, tables, at, n', j);
    }
  }

  /** Overwriting a level 3 entry changes that entry and nothing else. */
  lemma StoreForest(base: nat, tables: seq<seq<nat>>, at: Places, n: Node, i: nat, d: nat)
    requires Forest(base, tables, at) && n in at && |n.path| == 3 && i < 512 && d < WORD && at[n] < |tables|
    ensures |tables[at[n]]| == 512 && Forest(base, WithEntry(tables, at[n], i, d), at)
    ensures forall root, ixs | |ixs| == 4 ::
              EntryAt(WithEntry(tables, at[n], i, d), at, root, ixs) ==
              if root == n.root && ixs == n.path + [i] then d else EntryAt(tables, at, root, ixs)
  {
    assert |tables[at[n]]| == 512;
    hide Placed, Linked, EntryAt;
    forall n' | n' in at
      ensures Placed(base, WithEntry(tables, at[n], i, d), at, n')
    {
      StorePlaced(base, tables, at, n, i, d, n');
    }
    forall root, ixs | |ixs| == 4
      ensures EntryAt(WithEntry(tables, at[n], i, d), at, root, ixs) ==
              if root == n.root && ixs == n.path + [i] then d else EntryAt(tables, at, root, ixs)
    {
      StoreEntries(base, tables, at, n, i, d, root, ixs);
    }
  }

  /** What an update reports: the table addresses of levels 1 to 3, and for each level the address it
      takes the entry to be at, which is the table address plus the index, unscaled. */
  datatype UpdateWalk = UpdateWalk(tables: seq<nat>, ptes: seq<nat>, updated: seq<nat>)

  /** The table at the first `l` indices is at this address, and this is the address plus the next index. */
  ghost predicate Passed(base: nat, at: Places, root: nat, ixs: seq<nat>, l: nat, table: nat, pte: nat)
    requires l < |ixs|
  {
    Node(root, ixs[..l]) in at && table == base + 4096 * at[Node(root, ixs[..l])] && pte == table + ixs[l]
  }

  /** The tables below the root, level by level, and what is taken for the entries from the root on. */
  ghost predicate Path(base: nat, at: Places, root: nat, ixs: seq<nat>, tables: seq<nat>, ptes: seq<nat>) {
    && |ixs| == 4 && |tables| <= 3 && |ptes| == |tables| + 1
    && Passed(base, at, root, ixs, 0, base + 4096 * root, ptes[0])
    && (|tables| >= 1 ==> Passed(base, at, root, ixs, 1, tables[0], ptes[1]))
    && (|tables| >= 2 ==> Passed(base, at, root, ixs, 2, tables[1], ptes[2]))
    && (|tables| >= 3 ==> Passed(base, at, root, ixs, 3, tables[2], ptes[3]))
  }

  /** What an update reports: the tables of the path to the page and the three levels above it, and as the
      one entry updated the last. */
  ghost predicate Reports(walk: UpdateWalk, base: nat, at: Places, root: nat, ixs: seq<nat>) {
    && |walk.tables| == 3 && Path(base, at, root, ixs, walk.tables, walk.ptes)
    && walk.updated == [walk.ptes[3]]
  }

  lemma PathStart(base: nat, tables: seq<seq<nat>>, at: Places, root: nat, ixs: seq<nat>)
    requires Forest(base, tables, at) && Node(root, []) in at && |ixs| == 4
    ensures Path(base, at, root, ixs, [], [TableAddress(base, root) + ixs[0]])
  {
    hide NewTable, ConcreteTableAddress, TableAddress;
    PlacedOf(base, tables, at, Node(root, []));
    assert ixs[..0] == [];
    TableValue(base, root);
  }

  /** A table added at a free place changes no path. */
  lemma PathKept(base: nat, at: Places, at': Places, root: nat, ixs: seq<nat>, tables: seq<nat>, ptes: seq<nat>)
    requires Path(base, at, root, ixs, tables, ptes) && forall n | n in at :: n in at' && at'[n] == at[n]
    ensures Path(base, at', root, ixs, tables, ptes)
  {
  }

  lemma PathNext(base: nat, all: seq<seq<nat>>, at: Places, root: nat, ixs: seq<nat>, tables: seq<nat>, ptes: seq<nat>,
                 table: nat)
    requires Forest(base, all, at) && Path(base, at, root, ixs, tables, ptes) && |tables| < 3
    requires Node(root, ixs[..|tables| + 1]) in at && at[Node(root, ixs[..|tables| + 1])] == table
    ensures Path(base, at, root, ixs, tables + [TableAddress(base, table)],
                 ptes + [TableAddress(base, table) + ixs[|tables| + 1]])
    ensures |ptes| == |tables| + 1
  {
    hide NewTable, ConcreteTableAddress, TableAddress;
    PlacedOf(base, all, at, Node(root, ixs[..|tables| + 1]));
    TableValue(base, table);
  }

  class PageTables {
    const baseAddr: nat
    var tables: seq<seq<nat>>

    /** Which table sits at which place. */
    ghost var at: Places

    ghost predicate Valid() reads this { Forest(baseAddr, tables, at) }

    /** The address space has room for `more` further tables. */
    ghost predicate Fits(more: nat) reads this { baseAddr + 4096 * (|tables| + more) <= WORD }

    ghost predicate IsRoot(root: nat) reads this { Node(root, []) in at }

    ghost function Entry(root: nat, ixs: seq<nat>): nat
      requires |ixs| == 4
      reads this
    {
      EntryAt(tables, at, root, ixs)
    }

    constructor (baseAddr: nat)
      requires baseAddr > 0 && baseAddr % 4096 == 0 && baseAddr <= WORD
      ensures Valid() && this.baseAddr == baseAddr && tables == []
    {
      this.baseAddr := baseAddr;
      tables, at := [], map[];
    }

    method Alloc() returns (ix: nat)
      requires Valid() && Fits(1)
      modifies this
      ensures Valid() && ix == |old(tables)| && |tables| == ix + 1 && IsRoot(ix)
      ensures forall root :: IsRoot(root) <==> old(IsRoot(root)) || root == ix
      ensures forall root, ixs | |ixs| == 4 :: Entry(root, ixs) == old(Entry(root, ixs))
    {
      AllocForest(baseAddr, tables, at);
      ix := |tables|;
      tables := tables + [EmptyTable()];
      at := at[Node(ix, []) := ix];
    }

    function Lookup(addr: nat): Option<nat>
      reads this
    {
      if addr < baseAddr then None
      else
        var i := Shr(addr - baseAddr, 12);
        if i < |tables| then Some(i) else None
    }

    /** An upper-level descriptor is zero exactly when there is no table below, and looking up the
        address in it finds the table below or nothing. */
    lemma Below(n: Node, i: nat)
      requires Valid() && n in at && |n.path| < 3 && i < 512
      ensures at[n] < |tables| && |tables[at[n]]| == 512
      ensures tables[at[n]][i] < WORD
      ensures Child(n, i) in at ==> tables[at[n]][i] != 0 && tables[at[n]][i] == NewTable(baseAddr, at[Child(n, i)])
      ensures Child(n, i) !in at ==> tables[at[n]][i] == 0
      ensures Lookup(ConcreteTableAddress(tables[at[n]][i])) == if Child(n, i) in at then Some(at[Child(n, i)]) else None
    {
      PlacedOf(baseAddr, tables, at, n);
      assert Linked(baseAddr, tables, at, n, i);
      if Child(n, i) in at {
        PlacedOf(baseAddr, tables, at, Child(n, i));
        TableValue(baseAddr, at[Child(n, i)]);
      }
    }

    lemma LeafEntry(n: Node, i: nat)
      requires Valid() && n in at && |n.path| == 3 && i < 512
      ensures at[n] < |tables| && |tables[at[n]]| == 512
      ensures tables[at[n]][i] == Entry(n.root, n.path + [i])
    {
      PlacedOf(baseAddr, tables, at, n);
      assert (n.path + [i])[..3] == n.path;
    }

    /** Allocates a table and links it under entry `i` of `table`, which sits at `n`. */
    method LinkNewTable(table: nat, i: nat, ghost n: Node) returns (next: nat)
      requires Valid() && Fits(1) && n in at && at[n] == table && |n.path| < 3 && i < 512 && Child(n, i) !in at
      modifies this
      ensures Valid() && next == |old(tables)| && |tables| == next + 1 && at == old(at)[Child(n, i) := next]
      ensures forall root, ixs | |ixs| == 4 :: Entry(root, ixs) == old(Entry(root, ixs))
    {
      PlacedOf(baseAddr, tables, at, n);
      LinkForest(baseAddr, tables, at, n, i);
      LinkEntries(baseAddr, tables, at, n, i);
      next := |tables|;
      tables := tables + [EmptyTable()];
      tables := WithEntry(tables, table, i, NewTable(baseAddr, next));
      at := at[Child(n, i) := next];
    }

    /** Replaces the level 3 descriptor for `va` by what `updateDesc` makes of it, creating the tables on
        the way. No other entry of any table tree changes. */
    method Update(level0: nat, va: nat, updateDesc: nat -> Option<nat>) returns (walk: Option<UpdateWalk>)
      requires Valid() && Fits(3) && IsRoot(level0)
      requires forall d | updateDesc(d).Some? :: updateDesc(d).value < WORD
      modifies this
      ensures Valid() && |tables| <= |old(tables)| + 3
      ensures forall root :: IsRoot(root) <==> old(IsRoot(root))
      ensures walk.Some? <==> updateDesc(old(Entry(level0, Indices(va)))).Some?
      ensures forall root, ixs | |ixs| == 4 ::
                Entry(root, ixs) == if walk.Some? && root == level0 && ixs == Indices(va)
                                    then updateDesc(old(Entry(level0, Indices(va)))).value
                                    else old(Entry(root, ixs))
      ensures Node(level0, Indices(va)[..3]) in at
      ensures walk.Some? ==> Reports(walk.value, baseAddr, at, level0, Indices(va))
    {
      hide Forest, Placed, Linked, EntryAt, LevelIndex, NewTable, ConcreteTableAddress, TableAddress, WithEntry, Lookup;
      var ixs := Indices(va);
      IndicesBound(va);
      hide Path, Indices;
      var table := level0;
      ghost var n := Node(level0, []);
      Below(n, ixs[0]);
      PlacedOf(baseAddr, tables, at, n);
      var desc := tables[table][ixs[0]];
      var ptes: seq<nat> := [TableAddress(baseAddr, level0) + ixs[0]];
      var tableAddrs: seq<nat> := [];
      PathStart(baseAddr, tables, at, level0, ixs);
      for i := 1 to 3
        invariant Valid() && |tables| <= |old(tables)| + i - 1
        invariant n == Node(level0, ixs[..i - 1]) && n in at && at[n] == table && table < |tables|
        invariant |tables[table]| == 512 && desc == tables[table][ixs[i - 1]]
        invariant |tableAddrs| == i - 1 && Path(baseAddr, at, level0, ixs, tableAddrs, ptes)
        invariant forall root :: IsRoot(root) <==> old(IsRoot(root))
        invariant forall root, ixs | |ixs| == 4 :: Entry(root, ixs) == old(Entry(root, ixs))
      {
        Below(n, ixs[i - 1]);
        if desc == 0 {
          ghost var before := at;
          var next := LinkNewTable(table, ixs[i - 1], n);
          desc := NewTable(baseAddr, next);
          PathKept(baseAddr, before, at, level0, ixs, tableAddrs, ptes);
        }
        assert ixs[..i] == ixs[..i - 1] + [ixs[i - 1]];
        ghost var child := Child(n, ixs[i - 1]);
        Below(n, ixs[i - 1]);
        var found := Lookup(ConcreteTableAddress(desc));
        assert found == Some(at[child]);
        table := found.value;
        n := child;
        Below(n, ixs[i]);
        desc := tables[table][ixs[i]];
        PathNext(baseAddr, tables, at, level0, ixs, tableAddrs, ptes, table);
        tableAddrs := tableAddrs + [TableAddress(baseAddr, table)];
        ptes := ptes + [TableAddress(baseAddr, table) + ixs[i]];
      }
      Below(n, ixs[2]);
      var found := Lookup(ConcreteTableAddress(desc));
      if found.None? {
        ghost var before := at;
        table := LinkNewTable(table, ixs[2], n);
        PathKept(baseAddr, before, at, level0, ixs, tableAddrs, ptes);
      } else {
        table := found.value;
      }
      assert ixs[..3] == ixs[..2] + [ixs[2]];
      n := Child(n, ixs[2]);
      assert n == Node(level0, ixs[..3]) && ixs == n.path + [ixs[3]];
      LeafEntry(n, ixs[3]);
      var result := updateDesc(tables[table][ixs[3]]);
      if result.None? {
        return None;
      }
      StoreForest(baseAddr, tables, at, n, ixs[3], result.value);
      tables := WithEntry(tables, table, ixs[3], result.value);
      PathNext(baseAddr, tables, at, level0, ixs, tableAddrs, ptes, table);
      tableAddrs := tableAddrs + [TableAddress(baseAddr, table)];
      ptes := ptes + [TableAddress(baseAddr, table) + ixs[3]];
      return Some(UpdateWalk(tableAddrs, ptes, [ptes[3]]));
    }

    /** Maps the page of `va` to `page`; attributes with unknown bits leave the entry invalid. */
    method Map(level0: nat, va: nat, page: nat, bits: AttrBits) returns (walk: Option<UpdateWalk>)
      requires Valid() && Fits(3) && IsRoot(level0) && Representable(bits)
      modifies this
      ensures Valid() && |tables| <= |old(tables)| + 3
      ensures walk.Some? && forall root :: IsRoot(root) <==> old(IsRoot(root))
      ensures forall root, ixs | |ixs| == 4 ::
                Entry(root, ixs) == if root == level0 && ixs == Indices(va) then PageDesc(page, bits) else old(Entry(root, ixs))
      ensures Reports(walk.value, baseAddr, at, level0, Indices(va))
    {
      PageDescBound(page, bits);
      walk := Update(level0, va, _ => Some(PageDesc(page, bits)));
    }

    method IdentityMap(level0: nat, page: nat, bits: AttrBits) returns (walk: Option<UpdateWalk>)
      requires Valid() && Fits(3) && IsRoot(level0) && Representable(bits)
      modifies this
      ensures Valid() && |tables| <= |old(tables)| + 3
      ensures walk.Some? && forall root :: IsRoot(root) <==> old(IsRoot(root))
      ensures forall root, ixs | |ixs| == 4 ::
                Entry(root, ixs) == if root == level0 && ixs == Indices(page % 0x1_0000_0000_0000) then PageDesc(page, bits)
                                    else old(Entry(root, ixs))
      ensures Reports(walk.value, baseAddr, at, level0, Indices(page % 0x1_0000_0000_0000))
    {
      assert VaFromU64(page) == page % 0x1_0000_0000_0000 by { VaValue(page); }
      hide Forest, EntryAt, PageDesc, Indices, VaFromU64, Representable, Reports;
      walk := Map(level0, VaFromU64(page), page, bits);
    }

    method Invalid(level0: nat, va: nat) returns (walk: Option<UpdateWalk>)
      requires Valid() && Fits(3) && IsRoot(level0)
      modifies this
      ensures Valid() && |tables| <= |old(tables)| + 3
      ensures walk.Some? && forall root :: IsRoot(root) <==> old(IsRoot(root))
      ensures forall root, ixs | |ixs| == 4 ::
                Entry(root, ixs) == if root == level0 && ixs == Indices(va) then 0 else old(Entry(root, ixs))
      ensures Reports(walk.value, baseAddr, at, level0, Indices(va))
    {
      walk := Update(level0, va, _ => Some(0));
    }

    method Perform(op: Op) returns (walk: Option<UpdateWalk>)
      requires Valid() && Fits(3) && IsRoot(op.root) && (!op.InvalidOp? ==> Representable(op.bits))
      modifies this
      ensures Valid() && |tables| <= |old(tables)| + 3
      ensures forall root :: IsRoot(root) <==> old(IsRoot(root))
      ensures forall root, ixs | |ixs| == 4 ::
                Entry(root, ixs) == if root == op.root && ixs == op.Target() then op.Desc() else old(Entry(root, ixs))
      ensures walk.Some? && Reports(walk.value, baseAddr, at, op.root, op.Target())
    {
      hide Forest, EntryAt, PageDesc, Indices, Representable, Reports;
      match op {
        case MapOp(root, va, page, bits) => walk := Map(root, va, page, bits);
        case IdentityOp(root, page, bits) => walk := IdentityMap(root, page, bits);
        case InvalidOp(root, va) => walk := Invalid(root, va);
      }
    }

    /** Any sequence of calls: the last one to touch a page decides its entry. */
    method Replay(ops: seq<Op>)
      requires Valid() && Fits(3 * |ops|)
      requires forall op | op in ops :: IsRoot(op.root) && (!op.InvalidOp? ==> Representable(op.bits))
      modifies this
      ensures Valid()
      ensures forall root :: IsRoot(root) <==> old(IsRoot(root))
      ensures forall root, ixs | |ixs| == 4 :: Entry(root, ixs) == LastWritten(ops, root, ixs, old(Entry(root, ixs)))
    {
      for k := 0 to |ops|
        invariant Valid() && Fits(3 * (|ops| - k))
        invariant forall root :: IsRoot(root) <==> old(IsRoot(root))
        invariant forall root, ixs | |ixs| == 4 ::
                    Entry(root, ixs) == LastWritten(ops[..k], root, ixs, old(Entry(root, ixs)))
      {
        hide Forest, EntryAt, PageDesc, Indices, Representable, Reports, Op.Target, Op.Desc, LastWritten;
        var walk := Perform(ops[k]);
        forall root, ixs | |ixs| == 4
          ensures Entry(root, ixs) == LastWritten(ops[..k + 1], root, ixs, old(Entry(root, ixs)))
        {
          LastNext(ops, k, root, ixs, old(Entry(root, ixs)));
        }
      }
      assert ops[..|ops|] == ops;
    }
  }

  /** Attributes whose known bits stay inside the attribute fields of a descriptor. */
  ghost predicate Representable(bits: AttrBits) {
    bits.unknown == 0 ==> exists lo, hi :: Outside(bits.known, lo, hi)
  }

  lemma PageDescBound(page: nat, bits: AttrBits)
    requires Representable(bits)
    ensures PageDesc(page, bits) < WORD
  {
    if bits.unknown == 0 {
      var lo, hi :| Outside(bits.known, lo, hi);
      PageDescValue(page, bits.known, lo, hi);
    }
  }

  datatype Op =
    | MapOp(root: nat, va: nat, page: nat, bits: AttrBits)
    | IdentityOp(root: nat, page: nat, bits: AttrBits)
    | InvalidOp(root: nat, va: nat)
  {
    function Target(): seq<nat> { if IdentityOp? then Indices(page % 0x1_0000_0000_0000) else Indices(va) }

    function Desc(): nat { if InvalidOp? then 0 else PageDesc(page, bits) }
  }

  /** The descriptor the last operation on this page wrote, or `start` if none did. */
  lemma LastNext(ops: seq<Op>, k: nat, root: nat, ixs: seq<nat>, start: nat)
    requires k < |ops|
    ensures LastWritten(ops[..k + 1], root, ixs, start) ==
            if ops[k].root == root && ops[k].Target() == ixs then ops[k].Desc() else LastWritten(ops[..k], root, ixs, start)
  {
    assert ops[..k + 1][..k] == ops[..k] && ops[..k + 1][k] == ops[k];
    hide Op.Target, Op.Desc;
  }

  function LastWritten(ops: seq<Op>, root: nat, ixs: seq<nat>, start: nat): nat {
    if ops == [] then start
    else
      var op := ops[|ops| - 1];
      if op.root == root && op.Target() == ixs then op.Desc() else LastWritten(ops[..|ops| - 1], root, ixs, start)
  }
}
