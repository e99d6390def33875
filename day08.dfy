// Day 8: Memory Maneuver. A license file is a flat list of numbers encoding
// a tree: each node is a header (number of children, number of metadata
// entries), its children, then its metadata entries. The reader walks the
// list with an explicit stack of unfinished parents.
module Day08 {
  import opened Common

  datatype Node = Node(parentId: nat, id: nat)

  datatype License = License(rootId: nat, nodes: map<nat, Node>, metadata: map<nat, seq<nat>>)

  /** The reader's progress: the position of the next number, the last node
      id handed out, and the nodes and metadata collected so far. */
  datatype Acc = Acc(pos: nat, lastId: nat, nodes: map<nat, Node>, metadata: map<nat, seq<nat>>)

  /** An unfinished parent on the stack: the node, its child count when the
      header of its next child was read, and its metadata count. */
  datatype Frame = Frame(node: Node, children: nat, meta: nat)

  const RootId: nat := 0

  // ---------------------------------------------------------------------
  // Input

  /** The space-separated pieces of the first line of the trimmed input;
      `None` is the panic on an input without a line. */
  function Tokens(input: string): Option<seq<string>>
  {
    var lines := Lines(Trim(input));
    if lines == [] then None else Some(Split(lines[0], ' '))
  }

  /** A piece of the input read as a `u32`; `None` when it is not one. */
  function Piece(token: string): (r: Option<nat>)
    ensures r.Some? ==> r.value <= U32_MAX
  {
    match ParseInt(token, 0, U32_MAX)
    case Some(v) => Some(v as nat)
    case None => None
  }

  /** Every piece read as a `u32`. The reader consults a piece only when it
      needs the next number, so a malformed piece after the last number read
      does no harm, just as with the lazy iterator of `parse`. */
  function Pieces(tokens: seq<string>): (r: seq<Option<nat>>)
    ensures |r| == |tokens| && forall i :: 0 <= i < |tokens| ==> r[i] == Piece(tokens[i])
  {
    seq(|tokens|, i requires 0 <= i < |tokens| => Piece(tokens[i]))
  }

  /** `next_digits`: the next number; a missing or malformed piece is a panic. */
  function Number(nums: seq<Option<nat>>, pos: nat): (r: Option<nat>)
    ensures r.Some? ==> pos < |nums|
  {
    if pos < |nums| then nums[pos] else None
  }

  // ---------------------------------------------------------------------
  // The tree read recursively: the specification of the stack machine

  /** A child's header, a fresh id, the node recorded under its parent, then its body. */
  function ReadChild(nums: seq<Option<nat>>, parent: nat, acc: Acc): (r: Option<Acc>)
    requires acc.pos <= |nums|
    ensures r.Some? ==> acc.pos + 2 <= r.value.pos <= |nums|
    decreases |nums| - acc.pos, 2, 0
  {
    match (Number(nums, acc.pos), Number(nums, acc.pos + 1))
    case (Some(c), Some(m)) =>
      var id := acc.lastId + 1;
      ReadBody(nums, id, c, m, Acc(acc.pos + 2, id, acc.nodes[id := Node(parent, id)], acc.metadata))
    case _ => None
  }

  /** `count` children of `parent`, one after another. */
  function ReadChildren(nums: seq<Option<nat>>, parent: nat, count: nat, acc: Acc): (r: Option<Acc>)
    requires acc.pos <= |nums|
    ensures r.Some? ==> acc.pos <= r.value.pos <= |nums|
    decreases |nums| - acc.pos, 3, count
  {
    if count == 0 then Some(acc)
    else
      match ReadChild(nums, parent, acc)
      case None => None
      case Some(next) => ReadChildren(nums, parent, count - 1, next)
  }

  /** A node's children, then its metadata entries. */
  function ReadBody(nums: seq<Option<nat>>, id: nat, children: nat, meta: nat, acc: Acc): (r: Option<Acc>)
    requires acc.pos <= |nums|
    ensures r.Some? ==> acc.pos <= r.value.pos <= |nums|
    decreases |nums| - acc.pos, 4, 0
  {
    match ReadChildren(nums, id, children, acc)
    case None => None
    case Some(next) => ReadMetadata(nums, id, meta, next)
  }

  /** The node's metadata entry is created (if absent), then `meta` numbers are appended to it. */
  function ReadMetadata(nums: seq<Option<nat>>, id: nat, meta: nat, acc: Acc): (r: Option<Acc>)
    requires acc.pos <= |nums|
    ensures r.Some? ==> acc.pos <= r.value.pos <= |nums|
  {
    var entries := if id in acc.metadata then acc.metadata[id] else [];
    AppendMetadata(nums, id, meta, acc.(metadata := acc.metadata[id := entries]))
  }

  /** The `count` numbers from `pos` on, as far as they are present. */
  function Entries(nums: seq<Option<nat>>, pos: nat, count: nat): seq<nat>
    decreases count
  {
    if count == 0 then []
    else match Number(nums, pos)
      case None => []
      case Some(v) => [v] + Entries(nums, pos + 1, count - 1)
  }

  /** `meta` numbers appended to the node's entry. */
  function AppendMetadata(nums: seq<Option<nat>>, id: nat, meta: nat, acc: Acc): (r: Option<Acc>)
    requires id in acc.metadata && acc.pos <= |nums|
    ensures r.Some? ==> r.value.pos == acc.pos + meta <= |nums|
    decreases meta
  {
    if meta == 0 then Some(acc)
    else
      match Number(nums, acc.pos)
      case None => None
      case Some(v) =>
        AppendMetadata(nums, id, meta - 1,
          acc.(pos := acc.pos + 1, metadata := acc.metadata[id := acc.metadata[id] + [v]]))
  }

  /** Appending metadata touches only the node's own entry, which grows by
      exactly the numbers read, in order. */
  lemma {:induction false} AppendMetadataFacts(nums: seq<Option<nat>>, id: nat, meta: nat, acc: Acc)
    requires id in acc.metadata && acc.pos <= |nums|
    ensures var r := AppendMetadata(nums, id, meta, acc);
            r.Some? ==>
              && r.value.lastId == acc.lastId && r.value.nodes == acc.nodes
              && r.value.metadata.Keys == acc.metadata.Keys
              && r.value.metadata[id] == acc.metadata[id] + Entries(nums, acc.pos, meta)
              && forall k <- acc.metadata.Keys :: k != id ==> r.value.metadata[k] == acc.metadata[k]
    decreases meta
  {
    if meta > 0 && Number(nums, acc.pos).Some? {
      var v := Number(nums, acc.pos).value;
      var next := acc.(pos := acc.pos + 1, metadata := acc.metadata[id := acc.metadata[id] + [v]]);
      AppendMetadataFacts(nums, id, meta - 1, next);
      assert acc.metadata[id] + [v] + Entries(nums, acc.pos + 1, meta - 1)
          == acc.metadata[id] + Entries(nums, acc.pos, meta);
    }
  }

  /** The root node, its header, and its body. */
  function ReadLicense(nums: seq<Option<nat>>): Option<License>
  {
    match (Number(nums, 0), Number(nums, 1))
    case (Some(c), Some(m)) =>
      (match ReadBody(nums, RootId, c, m, Acc(2, RootId, map[RootId := Node(RootId, RootId)], map[]))
       case Some(acc) => Some(License(RootId, acc.nodes, acc.metadata))
       case None => None)
    case _ => None
  }

  /** The rest of the work the stack stands for: each frame, from the top,
      finishes its remaining children and then reads its metadata. */
  function Resume(nums: seq<Option<nat>>, stack: seq<Frame>, r: Option<Acc>): Option<Acc>
    requires forall f <- stack :: f.children >= 1
    requires r.Some? ==> r.value.pos <= |nums|
    decreases |stack|
  {
    if r.None? then None
    else if stack == [] then r
    else
      var f := stack[|stack| - 1];
      Resume(nums, stack[..|stack| - 1], ReadBody(nums, f.node.id, f.children - 1, f.meta, r.value))
  }

  /** A body with children left starts with one child, then continues with one child fewer. */
  lemma BodyAfterChild(nums: seq<Option<nat>>, id: nat, children: nat, meta: nat, acc: Acc)
    requires children >= 1 && acc.pos <= |nums|
    ensures ReadChild(nums, id, acc).None? ==> ReadBody(nums, id, children, meta, acc) == None
    ensures ReadChild(nums, id, acc).Some? ==>
              (ReadBody(nums, id, children, meta, acc)
            == ReadBody(nums, id, children - 1, meta, ReadChild(nums, id, acc).value))
  {
  }

  /** A body with no children left is the node's metadata. */
  lemma BodyWithoutChildren(nums: seq<Option<nat>>, id: nat, meta: nat, acc: Acc)
    requires acc.pos <= |nums|
    ensures ReadBody(nums, id, 0, meta, acc) == ReadMetadata(nums, id, meta, acc)
  {
  }

  /** Finishing the top frame's node hands its result to the frame below. */
  lemma ResumePop(nums: seq<Option<nat>>, stack: seq<Frame>, f: Frame, acc: Acc)
    requires f.children >= 1 && forall g <- stack :: g.children >= 1
    requires acc.pos <= |nums|
    ensures forall g <- stack + [f] :: g.children >= 1
    ensures Resume(nums, stack + [f], Some(acc))
         == Resume(nums, stack, ReadBody(nums, f.node.id, f.children - 1, f.meta, acc))
  {
    var pushed := stack + [f];
    assert pushed != [] && pushed[|pushed| - 1] == f;
    assert pushed[..|pushed| - 1] == stack;
    var next := ReadBody(nums, f.node.id, f.children - 1, f.meta, acc);
    assert Resume(nums, pushed, Some(acc)) == Resume(nums, pushed[..|pushed| - 1], next);
  }

  /** A child whose header numbers are missing ends the whole reading. */
  lemma HeaderMissing(nums: seq<Option<nat>>, stack: seq<Frame>, id: nat, children: nat, meta: nat, acc: Acc)
    requires children >= 1 && forall f <- stack :: f.children >= 1
    requires acc.pos <= |nums| && (Number(nums, acc.pos).None? || Number(nums, acc.pos + 1).None?)
    ensures Resume(nums, stack, ReadBody(nums, id, children, meta, acc)) == None
  {
    assert ReadChild(nums, id, acc) == None;
    BodyAfterChild(nums, id, children, meta, acc);
    ResumeNone(nums, stack);
  }

  /** Once reading has failed, it stays failed. */
  lemma ResumeNone(nums: seq<Option<nat>>, stack: seq<Frame>)
    requires forall f <- stack :: f.children >= 1
    ensures Resume(nums, stack, None) == None
  {
  }

  /** A child whose header numbers are present gets the next id and its body. */
  lemma ChildRead(nums: seq<Option<nat>>, parent: nat, acc: Acc, c: nat, m: nat)
    requires acc.pos + 2 <= |nums|
    requires Number(nums, acc.pos) == Some(c) && Number(nums, acc.pos + 1) == Some(m)
    ensures ReadChild(nums, parent, acc)
         == ReadBody(nums, acc.lastId + 1, c, m,
              Acc(acc.pos + 2, acc.lastId + 1, acc.nodes[acc.lastId + 1 := Node(parent, acc.lastId + 1)], acc.metadata))
  {
  }

  /** Reading a child's header pushes its parent's frame: the rest of the
      work is the child's body followed by the parent's remaining body. */
  lemma ResumePush(nums: seq<Option<nat>>, stack: seq<Frame>, node: Node, children: nat, meta: nat,
                   acc: Acc, c: nat, m: nat, child: Acc)
    requires children >= 1 && forall f <- stack :: f.children >= 1
    requires acc.pos + 2 <= |nums|
    requires Number(nums, acc.pos) == Some(c) && Number(nums, acc.pos + 1) == Some(m)
    requires child == Acc(acc.pos + 2, acc.lastId + 1, acc.nodes[acc.lastId + 1 := Node(node.id, acc.lastId + 1)], acc.metadata)
    ensures forall f <- stack + [Frame(node, children, meta)] :: f.children >= 1
    ensures Resume(nums, stack, ReadBody(nums, node.id, children, meta, acc))
         == Resume(nums, stack + [Frame(node, children, meta)], ReadBody(nums, child.lastId, c, m, child))
  {
    var pushed := stack + [Frame(node, children, meta)];
    ChildRead(nums, node.id, acc, c, m);
    BodyAfterChild(nums, node.id, children, meta, acc);
    var inner := ReadBody(nums, child.lastId, c, m, child);
    if inner.None? {
      assert ReadBody(nums, node.id, children, meta, acc) == None;
    } else {
      ResumePop(nums, stack, Frame(node, children, meta), inner.value);
    }
  }

  // ---------------------------------------------------------------------
  // The shape of what is read

  /** The nodes form a tree rooted at `RootId`: the ids in use are exactly
      `0..lastId`, each node is stored under its own id, the root is its own
      parent, every other node's parent has a smaller id (and so is a node
      too), and only nodes have metadata entries. */
  ghost predicate Consistent(acc: Acc)
  {
    && (forall k: nat :: k in acc.nodes <==> k <= acc.lastId)
    && (forall k {:trigger acc.nodes[k]} | k in acc.nodes ::
          && acc.nodes[k].id == k
          && (if k == RootId then acc.nodes[k].parentId == RootId else acc.nodes[k].parentId < k))
    && acc.metadata.Keys <= acc.nodes.Keys
  }

  /** `r` continues `acc`: still consistent, the nodes of `acc` untouched, and
      exactly the freshly numbered nodes added. */
  ghost predicate Grown(acc: Acc, r: Acc)
  {
    && Consistent(r)
    && acc.lastId <= r.lastId
    && (forall k <- acc.nodes.Keys :: k in r.nodes && r.nodes[k] == acc.nodes[k])
  }

  lemma GrownTrans(a: Acc, b: Acc, c: Acc)
    requires Grown(a, b) && Grown(b, c)
    ensures Grown(a, c)
  {
  }

  /** Recording one new node under a parent keeps the nodes consistent. */
  lemma NewNode(acc: Acc, parent: nat, next: Acc)
    requires Consistent(acc) && parent in acc.nodes
    requires next.lastId == acc.lastId + 1 && next.nodes == acc.nodes[acc.lastId + 1 := Node(parent, acc.lastId + 1)]
    requires next.metadata == acc.metadata
    ensures Grown(acc, next)
  {
    assert acc.nodes.Keys <= next.nodes.Keys;
  }

  lemma ChildrenStep(nums: seq<Option<nat>>, parent: nat, count: nat, acc: Acc)
    requires acc.pos <= |nums| && count >= 1
    ensures ReadChild(nums, parent, acc).None? ==> ReadChildren(nums, parent, count, acc).None?
    ensures ReadChild(nums, parent, acc).Some? ==>
              ReadChildren(nums, parent, count, acc) == ReadChildren(nums, parent, count - 1, ReadChild(nums, parent, acc).value)
  {
  }

  lemma BodyStep(nums: seq<Option<nat>>, id: nat, children: nat, meta: nat, acc: Acc)
    requires acc.pos <= |nums|
    ensures ReadChildren(nums, id, children, acc).None? ==> ReadBody(nums, id, children, meta, acc).None?
    ensures ReadChildren(nums, id, children, acc).Some? ==>
              ReadBody(nums, id, children, meta, acc) == ReadMetadata(nums, id, meta, ReadChildren(nums, id, children, acc).value)
  {
  }

  lemma {:induction false} ChildShape(nums: seq<Option<nat>>, parent: nat, acc: Acc)
    requires acc.pos <= |nums| && Consistent(acc) && parent in acc.nodes
    ensures var r := ReadChild(nums, parent, acc);
            r.Some? ==>
              && Grown(acc, r.value)
              && (forall k: nat :: k in r.value.metadata <==> k in acc.metadata || acc.lastId < k <= r.value.lastId)
    decreases |nums| - acc.pos, 2, 0
  {
    var c, m := Number(nums, acc.pos), Number(nums, acc.pos + 1);
    if c.Some? && m.Some? {
      var id := acc.lastId + 1;
      var next := Acc(acc.pos + 2, id, acc.nodes[id := Node(parent, id)], acc.metadata);
      ChildRead(nums, parent, acc, c.value, m.value);
      NewNode(acc, parent, next);
      BodyShape(nums, id, c.value, m.value, next);
      var r := ReadBody(nums, id, c.value, m.value, next);
      if r.Some? {
        GrownTrans(acc, next, r.value);
        assert ReadChild(nums, parent, acc) == r;
      }
    }
  }

  lemma {:induction false} ChildrenShape(nums: seq<Option<nat>>, parent: nat, count: nat, acc: Acc)
    requires acc.pos <= |nums| && Consistent(acc) && parent in acc.nodes
    ensures var r := ReadChildren(nums, parent, count, acc);
            r.Some? ==>
              && Grown(acc, r.value)
              && (forall k: nat :: k in r.value.metadata <==> k in acc.metadata || acc.lastId < k <= r.value.lastId)
    decreases |nums| - acc.pos, 3, count
  {
    if count > 0 {
      ChildrenStep(nums, parent, count, acc);
      ChildShape(nums, parent, acc);
      var next := ReadChild(nums, parent, acc);
      if next.Some? {
        ChildrenShape(nums, parent, count - 1, next.value);
        var r := ReadChildren(nums, parent, count - 1, next.value);
        if r.Some? {
          GrownTrans(acc, next.value, r.value);
        }
      }
    }
  }

  lemma {:induction false} BodyShape(nums: seq<Option<nat>>, id: nat, children: nat, meta: nat, acc: Acc)
    requires acc.pos <= |nums| && Consistent(acc) && id in acc.nodes
    ensures var r := ReadBody(nums, id, children, meta, acc);
            r.Some? ==>
              && Grown(acc, r.value)
              && (forall k: nat :: k in r.value.metadata <==> k in acc.metadata || k == id || acc.lastId < k <= r.value.lastId)
    decreases |nums| - acc.pos, 4, 0
  {
    BodyStep(nums, id, children, meta, acc);
    ChildrenShape(nums, id, children, acc);
    var next := ReadChildren(nums, id, children, acc);
    if next.Some? {
      var entries := if id in next.value.metadata then next.value.metadata[id] else [];
      var started := next.value.(metadata := next.value.metadata[id := entries]);
      AppendMetadataFacts(nums, id, meta, started);
    }
  }

  lemma {:induction false} DenseCard(ids: set<nat>, last: nat)
    requires forall k: nat :: k in ids <==> k <= last
    ensures |ids| == last + 1
    decreases last
  {
    if last == 0 {
      assert ids == {0};
    } else {
      DenseCard(ids - {last}, last - 1);
    }
  }

  /** A license that is read at all is a tree: its nodes are numbered
      `0..n-1` in the order their headers appear, the root is node 0 and its
      own parent, every other node's parent is a node read before it, and
      every node, even one without entries, has a metadata entry. */
  lemma LicenseIsTree(nums: seq<Option<nat>>)
    ensures var r := ReadLicense(nums);
            r.Some? ==>
              && r.value.rootId == RootId
              && r.value.metadata.Keys == r.value.nodes.Keys
              && (forall k: nat :: k in r.value.nodes <==> k < |r.value.nodes|)
              && RootId in r.value.nodes && r.value.nodes[RootId] == Node(RootId, RootId)
              && forall k <- r.value.nodes.Keys ::
                   && r.value.nodes[k].id == k
                   && r.value.nodes[k].parentId in r.value.nodes
                   && (k != RootId ==> r.value.nodes[k].parentId < k)
  {
    var c, m := Number(nums, 0), Number(nums, 1);
    if c.Some? && m.Some? {
      var start := Acc(2, RootId, map[RootId := Node(RootId, RootId)], map[]);
      assert Consistent(start);
      BodyShape(nums, RootId, c.value, m.value, start);
      var r := ReadBody(nums, RootId, c.value, m.value, start);
      if r.Some? {
        DenseCard(r.value.nodes.Keys, r.value.lastId);
        assert r.value.nodes.Keys == r.value.metadata.Keys;
      }
    }
  }

  // ---------------------------------------------------------------------
  // The metadata checksum

  /** The sum of all entries of the nodes in `ids`, whatever the order in
      which the nodes are visited. */
  ghost function MetaTotal(metadata: map<nat, seq<nat>>, ids: set<nat>): int
    requires ids <= metadata.Keys
    decreases ids
  {
    if ids == {} then 0
    else
      var k :| k in ids;
      Sum(metadata[k]) + MetaTotal(metadata, ids - {k})
  }

  /** Any node may be taken first. */
  lemma {:induction false} MetaTotalRemove(metadata: map<nat, seq<nat>>, ids: set<nat>, k: nat)
    requires ids <= metadata.Keys && k in ids
    ensures MetaTotal(metadata, ids) == Sum(metadata[k]) + MetaTotal(metadata, ids - {k})
    decreases ids
  {
    var j :| j in ids && MetaTotal(metadata, ids) == Sum(metadata[j]) + MetaTotal(metadata, ids - {j});
    if j != k {
      MetaTotalRemove(metadata, ids - {j}, k);
      MetaTotalRemove(metadata, ids - {k}, j);
      assert ids - {j} - {k} == ids - {k} - {j};
    }
  }

  /** The total depends only on the entries of the nodes counted. */
  lemma {:induction false} MetaTotalAgree(a: map<nat, seq<nat>>, b: map<nat, seq<nat>>, ids: set<nat>)
    requires ids <= a.Keys && ids <= b.Keys
    requires forall k <- ids :: a[k] == b[k]
    ensures MetaTotal(a, ids) == MetaTotal(b, ids)
    decreases ids
  {
    if ids != {} {
      var k :| k in ids;
      MetaTotalRemove(a, ids, k);
      MetaTotalRemove(b, ids, k);
      MetaTotalAgree(a, b, ids - {k});
    }
  }

  /** Appending entries to one node adds their sum to the total. */
  lemma MetaTotalAppend(metadata: map<nat, seq<nat>>, id: nat, extra: seq<nat>)
    requires id in metadata
    ensures MetaTotal(metadata[id := metadata[id] + extra], metadata.Keys)
         == MetaTotal(metadata, metadata.Keys) + Sum(extra)
  {
    var grown := metadata[id := metadata[id] + extra];
    MetaTotalRemove(metadata, metadata.Keys, id);
    MetaTotalRemove(grown, metadata.Keys, id);
    MetaTotalAgree(metadata, grown, metadata.Keys - {id});
    SumAppend(metadata[id], extra);
  }

  /** Creating a node's empty entry, if it has none, leaves the total as it is. */
  lemma MetaTotalOpen(metadata: map<nat, seq<nat>>, id: nat)
    ensures var started := metadata[id := if id in metadata then metadata[id] else []];
            MetaTotal(started, started.Keys) == MetaTotal(metadata, metadata.Keys)
  {
    var started := metadata[id := if id in metadata then metadata[id] else []];
    if id in metadata {
      assert started == metadata;
    } else {
      assert started.Keys - {id} == metadata.Keys;
      MetaTotalRemove(started, started.Keys, id);
      MetaTotalAgree(started, metadata, metadata.Keys);
    }
  }

  /** `License::metadata_checksum`: the entries of every node summed, the
      nodes visited in the map's own order. */
  method Checksum(license: License) returns (total: int)
    ensures total == MetaTotal(license.metadata, license.metadata.Keys)
  {
    var metadata := license.metadata;
    total := 0;
    var rest := metadata.Keys;
    while rest != {}
      invariant rest <= metadata.Keys
      invariant total + MetaTotal(metadata, rest) == MetaTotal(metadata, metadata.Keys)
      decreases rest
    {
      var k :| k in rest;
      MetaTotalRemove(metadata, rest, k);
      total := total + Sum(metadata[k]);
      rest := rest - {k};
    }
  }

  // ---------------------------------------------------------------------
  // Reading an encoded tree

  /** A tree of the shape the license describes. */
  datatype Tree = Tree(children: seq<Tree>, meta: seq<nat>)

  /** The numbers of a tree: the header, the children, then the metadata. */
  function Encode(t: Tree): seq<nat>
    decreases t
  {
    [|t.children|, |t.meta|] + EncodeAll(t.children) + t.meta
  }

  function EncodeAll(ts: seq<Tree>): seq<nat>
    decreases ts
  {
    if ts == [] then [] else Encode(ts[0]) + EncodeAll(ts[1..])
  }

  function Size(t: Tree): nat
    decreases t
  {
    1 + SizeAll(t.children)
  }

  function SizeAll(ts: seq<Tree>): nat
    decreases ts
  {
    if ts == [] then 0 else Size(ts[0]) + SizeAll(ts[1..])
  }

  function TreeSum(t: Tree): int
    decreases t
  {
    Sum(t.meta) + TreeSumAll(t.children)
  }

  function TreeSumAll(ts: seq<Tree>): int
    decreases ts
  {
    if ts == [] then 0 else TreeSum(ts[0]) + TreeSumAll(ts[1..])
  }

  /** The numbers from `pos` on are `s`. */
  ghost predicate Reads(nums: seq<Option<nat>>, pos: nat, s: seq<nat>)
  {
    pos + |s| <= |nums| && forall i :: 0 <= i < |s| ==> nums[pos + i] == Some(s[i])
  }

  lemma ReadsSplit(nums: seq<Option<nat>>, pos: nat, a: seq<nat>, b: seq<nat>)
    requires Reads(nums, pos, a + b)
    ensures Reads(nums, pos, a) && Reads(nums, pos + |a|, b)
  {
    forall i | 0 <= i < |a|
      ensures nums[pos + i] == Some(a[i])
    {
      assert (a + b)[i] == a[i];
    }
    forall i | 0 <= i < |b|
      ensures nums[pos + |a| + i] == Some(b[i])
    {
      assert (a + b)[|a| + i] == b[i];
    }
  }

  lemma {:induction false} AppendRead(nums: seq<Option<nat>>, id: nat, s: seq<nat>, acc: Acc)
    requires id in acc.metadata && Reads(nums, acc.pos, s)
    ensures var r := AppendMetadata(nums, id, |s|, acc);
            r.Some? && r.value.pos == acc.pos + |s| && Entries(nums, acc.pos, |s|) == s
    decreases |s|
  {
    if s != [] {
      assert nums[acc.pos] == Some(s[0]);
      var next := acc.(pos := acc.pos + 1, metadata := acc.metadata[id := acc.metadata[id] + [s[0]]]);
      ReadsSplit(nums, acc.pos, [s[0]], s[1..]);
      assert [s[0]] + s[1..] == s;
      AppendRead(nums, id, s[1..], next);
    }
  }

  /** The numbers of a tree read as a child: one node per tree node, the
      checksum grown by the tree's metadata. */
  lemma {:induction false} ChildEncoded(nums: seq<Option<nat>>, parent: nat, t: Tree, acc: Acc)
    requires acc.pos <= |nums| && acc.metadata.Keys <= acc.nodes.Keys
    requires Reads(nums, acc.pos, Encode(t))
    ensures var r := ReadChild(nums, parent, acc);
            && r.Some?
            && r.value.pos == acc.pos + |Encode(t)|
            && r.value.lastId == acc.lastId + Size(t)
            && acc.nodes.Keys <= r.value.nodes.Keys && r.value.metadata.Keys <= r.value.nodes.Keys
            && MetaTotal(r.value.metadata, r.value.metadata.Keys)
               == MetaTotal(acc.metadata, acc.metadata.Keys) + TreeSum(t)
    decreases t, 1
  {
    var head := [|t.children|, |t.meta|];
    var body := EncodeAll(t.children) + t.meta;
    assert Encode(t) == head + body;
    ReadsSplit(nums, acc.pos, head, body);
    assert nums[acc.pos + 0] == Some(head[0]) && nums[acc.pos + 1] == Some(head[1]);
    var id := acc.lastId + 1;
    var next := Acc(acc.pos + 2, id, acc.nodes[id := Node(parent, id)], acc.metadata);
    ChildRead(nums, parent, acc, |t.children|, |t.meta|);
    BodyEncoded(nums, id, t, next);
  }

  lemma {:induction false} ChildrenEncoded(nums: seq<Option<nat>>, parent: nat, ts: seq<Tree>, acc: Acc)
    requires acc.pos <= |nums| && acc.metadata.Keys <= acc.nodes.Keys
    requires Reads(nums, acc.pos, EncodeAll(ts))
    ensures var r := ReadChildren(nums, parent, |ts|, acc);
            && r.Some?
            && r.value.pos == acc.pos + |EncodeAll(ts)|
            && r.value.lastId == acc.lastId + SizeAll(ts)
            && acc.nodes.Keys <= r.value.nodes.Keys && r.value.metadata.Keys <= r.value.nodes.Keys
            && MetaTotal(r.value.metadata, r.value.metadata.Keys)
               == MetaTotal(acc.metadata, acc.metadata.Keys) + TreeSumAll(ts)
    decreases ts, 0
  {
    if ts != [] {
      ReadsSplit(nums, acc.pos, Encode(ts[0]), EncodeAll(ts[1..]));
      ChildEncoded(nums, parent, ts[0], acc);
      ChildrenStep(nums, parent, |ts|, acc);
      var next := ReadChild(nums, parent, acc).value;
      ChildrenEncoded(nums, parent, ts[1..], next);
    }
  }

  /** The children and metadata of a tree read as the body of node `id`. */
  lemma {:induction false} BodyEncoded(nums: seq<Option<nat>>, id: nat, t: Tree, acc: Acc)
    requires acc.pos <= |nums| && acc.metadata.Keys <= acc.nodes.Keys && id in acc.nodes
    requires Reads(nums, acc.pos, EncodeAll(t.children) + t.meta)
    ensures var r := ReadBody(nums, id, |t.children|, |t.meta|, acc);
            && r.Some?
            && r.value.pos == acc.pos + |EncodeAll(t.children) + t.meta|
            && r.value.lastId == acc.lastId + SizeAll(t.children)
            && acc.nodes.Keys <= r.value.nodes.Keys && r.value.metadata.Keys <= r.value.nodes.Keys
            && MetaTotal(r.value.metadata, r.value.metadata.Keys)
               == MetaTotal(acc.metadata, acc.metadata.Keys) + TreeSum(t)
    decreases t, 0
  {
    ReadsSplit(nums, acc.pos, EncodeAll(t.children), t.meta);
    ChildrenEncoded(nums, id, t.children, acc);
    BodyStep(nums, id, |t.children|, |t.meta|, acc);
    var next := ReadChildren(nums, id, |t.children|, acc).value;
    var entries := if id in next.metadata then next.metadata[id] else [];
    var started := next.(metadata := next.metadata[id := entries]);
    MetaTotalOpen(next.metadata, id);
    AppendRead(nums, id, t.meta, started);
    AppendMetadataFacts(nums, id, |t.meta|, started);
    var r := AppendMetadata(nums, id, |t.meta|, started).value;
    MetaTotalAgree(r.metadata, started.metadata[id := started.metadata[id] + t.meta], started.metadata.Keys);
    MetaTotalAppend(started.metadata, id, t.meta);
  }

  /** The numbers of a tree, followed by anything at all, read as a license:
      one node per tree node and the tree's metadata as the checksum. */
  lemma LicenseEncoded(nums: seq<Option<nat>>, t: Tree)
    requires Reads(nums, 0, Encode(t))
    ensures var r := ReadLicense(nums);
            && r.Some?
            && |r.value.nodes| == Size(t)
            && MetaTotal(r.value.metadata, r.value.metadata.Keys) == TreeSum(t)
  {
    var head := [|t.children|, |t.meta|];
    assert Encode(t) == head + (EncodeAll(t.children) + t.meta);
    ReadsSplit(nums, 0, head, EncodeAll(t.children) + t.meta);
    assert nums[0] == Some(head[0]) && nums[0 + 1] == Some(head[1]);
    var start := Acc(2, RootId, map[RootId := Node(RootId, RootId)], map[]);
    assert Consistent(start);
    BodyEncoded(nums, RootId, t, start);
    BodyShape(nums, RootId, |t.children|, |t.meta|, start);
    var r := ReadBody(nums, RootId, |t.children|, |t.meta|, start).value;
    DenseCard(r.nodes.Keys, r.lastId);
  }

  function ExampleTree(): Tree
  {
    Tree([Tree([], [10, 11, 12]), Tree([Tree([], [99])], [2])], [1, 1, 2])
  }

  /** The example's numbers are the encoding of its tree. */
  lemma ExampleEncoding()
    ensures Encode(ExampleTree()) == [2, 3, 0, 3, 10, 11, 12, 1, 1, 0, 1, 99, 2, 1, 1, 2]
  {
    var b, c, d := Tree([], [10, 11, 12]), Tree([Tree([], [99])], [2]), Tree([], [99]);
    assert Encode(b) == [0, 3, 10, 11, 12];
    assert Encode(d) == [0, 1, 99];
    assert Encode(c) == [1, 1, 0, 1, 99, 2];
  }

  /** The example's tree has four nodes and metadata summing to 138. */
  lemma ExampleTreeFacts()
    ensures Size(ExampleTree()) == 4 && TreeSum(ExampleTree()) == 138
  {
  }

  /** The example license: four nodes and checksum 138. */
  lemma ExampleChecksum(nums: seq<Option<nat>>)
    requires Reads(nums, 0, [2, 3, 0, 3, 10, 11, 12, 1, 1, 0, 1, 99, 2, 1, 1, 2])
    ensures var r := ReadLicense(nums);
            r.Some? && |r.value.nodes| == 4 && MetaTotal(r.value.metadata, r.value.metadata.Keys) == 138
  {
    ExampleEncoding();
    ExampleTreeFacts();
    LicenseEncoded(nums, ExampleTree());
  }

  // ---------------------------------------------------------------------
  // parse

  /** The `for` loop of `parse` that pushes a node's metadata entries onto
      its entry, one number at a time. */
  method AppendEntries(nums: seq<Option<nat>>, id: nat, meta: nat, acc: Acc) returns (r: Option<Acc>)
    requires id in acc.metadata && acc.pos <= |nums|
    ensures r == AppendMetadata(nums, id, meta, acc)
    ensures r.Some? ==> r.value.lastId == acc.lastId && r.value.nodes == acc.nodes
  {
    var pos: nat := acc.pos;
    var metadata: map<nat, seq<nat>> := acc.metadata;
    for k := 0 to meta
      invariant pos == acc.pos + k <= |nums| && id in metadata
      invariant AppendMetadata(nums, id, meta, acc)
             == AppendMetadata(nums, id, meta - k, acc.(pos := pos, metadata := metadata))
    {
      var v := Number(nums, pos);
      if v.None? {
        return None;
      }
      metadata := metadata[id := metadata[id] + [v.value]];
      pos := pos + 1;
    }
    r := Some(acc.(pos := pos, metadata := metadata));
  }

  /** `parse` once the input is split: the loop over the explicit stack of
      parents. `None` is the panic when the numbers run out or one is not a
      `u32`. */
  method ParseNumbers(nums: seq<Option<nat>>) returns (r: Option<License>)
    ensures r == ReadLicense(nums)
  {
    var c0 := Number(nums, 0);
    var m0 := Number(nums, 1);
    if c0.None? || m0.None? {
      return None;
    }
    var root := Node(RootId, RootId);
    var nodes: map<nat, Node> := map[RootId := root];
    var metadata: map<nat, seq<nat>> := map[];
    var pos: nat, lastId: nat := 2, RootId;
    var current := root;
    var numChildren: nat, numMeta: nat := c0.value, m0.value;
    var stack: seq<Frame> := [];
    ghost var goal := ReadBody(nums, RootId, c0.value, m0.value, Acc(2, RootId, nodes, metadata));
    while true
      invariant pos <= |nums|
      invariant forall f <- stack :: f.children >= 1
      invariant Resume(nums, stack, ReadBody(nums, current.id, numChildren, numMeta, Acc(pos, lastId, nodes, metadata))) == goal
      decreases |nums| - pos, |stack|
    {
      var acc := Acc(pos, lastId, nodes, metadata);
      if numChildren == 0 {
        BodyWithoutChildren(nums, current.id, numMeta, acc);
        var entries := if current.id in metadata then metadata[current.id] else [];
        var done := AppendEntries(nums, current.id, numMeta, acc.(metadata := metadata[current.id := entries]));
        if done.None? {
          return None;
        }
        pos, metadata := done.value.pos, done.value.metadata;
        if stack == [] {
          return Some(License(RootId, nodes, metadata));
        }
        var f := stack[|stack| - 1];
        assert f in stack;
        stack := stack[..|stack| - 1];
        ResumePop(nums, stack, f, done.value);
        current, numChildren, numMeta := f.node, f.children - 1, f.meta;
      } else {
        var c := Number(nums, pos);
        var m := Number(nums, pos + 1);
        if c.None? || m.None? {
          HeaderMissing(nums, stack, current.id, numChildren, numMeta, acc);
          return None;
        }
        ResumePush(nums, stack, current, numChildren, numMeta, acc, c.value, m.value,
          Acc(pos + 2, lastId + 1, nodes[lastId + 1 := Node(current.id, lastId + 1)], metadata));
        stack := stack + [Frame(current, numChildren, numMeta)];
        lastId := lastId + 1;
        current := Node(current.id, lastId);
        nodes := nodes[lastId := current];
        pos := pos + 2;
        numChildren, numMeta := c.value, m.value;
      }
    }
  }

  /** `parse`: the first line of the trimmed input, split at spaces, read as a license. */
  method Parse(input: string) returns (r: Option<License>)
    ensures r == match Tokens(input)
                 case None => None
                 case Some(tokens) => ReadLicense(Pieces(tokens))
  {
    var tokens := Tokens(input);
    if tokens.None? {
      return None;
    }
    r := ParseNumbers(Pieces(tokens.value));
  }
}
