/** Releasing an mpv_node tree (AutoMpvNode::free_node in module/mpv_node.cpp), recorded as
    the log of the delete expressions it evaluates and compared with the blocks init_node
    allocated for the same tree. */
module NodeRelease {
  import opened MpvNode

  /** Where a node sits in the tree: the child indexes leading to it from the root. */
  type Path = seq<nat>

  /** A heap block init_node allocates for the node at `at`. */
  datatype Block =
    | StringChars(at: Path)        // node.u.string = new char[len + 1]
    | ByteData(at: Path)           // node.u.ba->data = new uint8_t[size]
    | ByteArrayHeader(at: Path)    // node.u.ba = new mpv_byte_array
    | ListHeader(at: Path)         // node.u.list = new mpv_node_list
    | KeyArray(at: Path)           // node.u.list->keys = new char*[num]
    | KeyChars(at: Path, k: nat)   // node.u.list->keys[k] = new char[len + 1]
    | ValueArray(at: Path)         // node.u.list->values = new mpv_node[num]

  /** `new T` and `delete p` (ScalarForm) versus `new T[n]` and `delete[] p` (ArrayForm). */
  datatype Form = ScalarForm | ArrayForm

  /** One allocation, or one release: the block and the form of new or delete used on it. */
  datatype Chunk = Chunk(block: Block, form: Form)

  /*************************************************************************************
   * What init_node allocates
   *************************************************************************************/

  /** The key buffers keys[0], ..., keys[m - 1] of the list at `at`, in index order. */
  function KeyChunks(at: Path, m: nat): (r: seq<Chunk>)
    ensures |r| == m
  {
    if m == 0 then [] else KeyChunks(at, m - 1) + [Chunk(KeyChars(at, m - 1), ArrayForm)]
  }

  /** The key buffers init_node allocates for the first m keys of the list at `at`. */
  function KeyAllocations(at: Path, m: nat): multiset<Chunk> {
    if m == 0 then multiset{}
    else KeyAllocations(at, m - 1) + multiset{Chunk(KeyChars(at, m - 1), ArrayForm)}
  }

  /** Every block init_node allocates for the tree `n` placed at `at`, with the form of
      `new` used for it. */
  function Allocations(n: Node, at: Path): multiset<Chunk>
    decreases n, 1
  {
    match n
    case String(_) => multiset{Chunk(StringChars(at), ArrayForm)}
    case ByteArray(_) =>
      multiset{Chunk(ByteArrayHeader(at), ScalarForm), Chunk(ByteData(at), ArrayForm)}
    case NodeArray(values) =>
      multiset{Chunk(ListHeader(at), ScalarForm), Chunk(ValueArray(at), ArrayForm)}
        + ChildAllocations(values, at, |values|)
    case NodeMap(keys, values) =>
      multiset{Chunk(ListHeader(at), ScalarForm), Chunk(KeyArray(at), ArrayForm),
               Chunk(ValueArray(at), ArrayForm)}
        + KeyAllocations(at, |keys|) + ChildAllocations(values, at, |values|)
    case _ => multiset{}
  }

  /** The allocations of the children values[0], ..., values[m - 1]. */
  function ChildAllocations(values: seq<Node>, at: Path, m: nat): multiset<Chunk>
    requires m <= |values|
    decreases values, 0, m
  {
    if m == 0 then multiset{}
    else ChildAllocations(values, at, m - 1) + Allocations(values[m - 1], at + [m - 1])
  }

  /*************************************************************************************
   * free_node as written
   *************************************************************************************/

  /** `s` repeated m times. */
  function Repeat<T>(s: seq<T>, m: nat): seq<T> {
    if m == 0 then [] else Repeat(s, m - 1) + s
  }

  /** One pass of the body of free_node's outer `for (j < num)` loop over the list at `at`:
      the key buffers and (with `delete`, not `delete[]`) the key array when the list has
      keys, then every child, then the value array. */
  function ListPassAsWritten(hasKeys: bool, values: seq<Node>, at: Path): seq<Chunk>
    decreases values, 1
  {
    (if hasKeys then KeyChunks(at, |values|) + [Chunk(KeyArray(at), ScalarForm)] else [])
      + ChildrenAsWritten(values, at, |values|) + [Chunk(ValueArray(at), ArrayForm)]
  }

  /** free_node of the children values[0], ..., values[m - 1], in order. */
  function ChildrenAsWritten(values: seq<Node>, at: Path, m: nat): seq<Chunk>
    requires m <= |values|
    decreases values, 0, m
  {
    if m == 0 then []
    else ChildrenAsWritten(values, at, m - 1) + FreeAsWritten(values[m - 1], at + [m - 1])
  }

  /** The delete expressions free_node evaluates on the tree `n` at `at`, in order, as the
      source is written: a list runs its whole body once per entry (num passes, so none when
      num == 0) and then deletes its header. */
  function FreeAsWritten(n: Node, at: Path): seq<Chunk>
    decreases n, 2
  {
    match n
    case String(_) => [Chunk(StringChars(at), ArrayForm)]
    case NodeArray(values) =>
      Repeat(ListPassAsWritten(false, values, at), |values|) + [Chunk(ListHeader(at), ScalarForm)]
    case NodeMap(_, values) =>
      Repeat(ListPassAsWritten(true, values, at), |values|) + [Chunk(ListHeader(at), ScalarForm)]
    case ByteArray(_) => [Chunk(ByteData(at), ArrayForm), Chunk(ByteArrayHeader(at), ScalarForm)]
    case _ => []
  }

  /** AutoMpvNode::free_node as written, loop by loop. */
  method FreeNodeAsWritten(n: Node, at: Path) returns (log: seq<Chunk>)
    ensures log == FreeAsWritten(n, at)
    decreases n, 2
  {
    match n {
      case String(_) =>
        log := [Chunk(StringChars(at), ArrayForm)];
      case NodeArray(values) =>
        log := FreeListAsWritten(false, values, at);
      case NodeMap(_, values) =>
        log := FreeListAsWritten(true, values, at);
      case ByteArray(_) =>
        log := [Chunk(ByteData(at), ArrayForm), Chunk(ByteArrayHeader(at), ScalarForm)];
      case _ =>
        log := [];
    }
  }

  /** The NODE_ARRAY / NODE_MAP case of free_node as written: the outer loop over j, then
      the header. */
  method FreeListAsWritten(hasKeys: bool, values: seq<Node>, at: Path) returns (log: seq<Chunk>)
    ensures log == Repeat(ListPassAsWritten(hasKeys, values, at), |values|)
                   + [Chunk(ListHeader(at), ScalarForm)]
    decreases values, 1
  {
    log := [];
    for j := 0 to |values|
      invariant log == Repeat(ListPassAsWritten(hasKeys, values, at), j)
    {
      var pass := FreeListPassAsWritten(hasKeys, values, at);
      log := log + pass;
    }
    log := log + [Chunk(ListHeader(at), ScalarForm)];
  }

  /** One pass of the outer loop's body: the key loop and the key array, the child loop, and
      the value array. */
  method FreeListPassAsWritten(hasKeys: bool, values: seq<Node>, at: Path) returns (log: seq<Chunk>)
    ensures log == ListPassAsWritten(hasKeys, values, at)
    decreases values, 0
  {
    var num := |values|;
    log := [];
    if hasKeys {
      for k := 0 to num
        invariant log == KeyChunks(at, k)
      {
        log := log + [Chunk(KeyChars(at, k), ArrayForm)];
      }
      log := log + [Chunk(KeyArray(at), ScalarForm)];
    }
    var keyPart := log;
    for v := 0 to num
      invariant log == keyPart + ChildrenAsWritten(values, at, v)
    {
      var child := FreeNodeAsWritten(values[v], at + [v]);
      log := log + child;
    }
    log := log + [Chunk(ValueArray(at), ArrayForm)];
  }

  /*************************************************************************************
   * free_node as intended: each block once, with the matching form of delete
   *************************************************************************************/

  /** free_node of the children values[0], ..., values[m - 1], in order. */
  function Children(values: seq<Node>, at: Path, m: nat): seq<Chunk>
    requires m <= |values|
    decreases values, 0, m
  {
    if m == 0 then [] else Children(values, at, m - 1) + Free(values[m - 1], at + [m - 1])
  }

  /** The delete expressions of a free_node that releases a list once: the key buffers and
      the key array (with `delete[]`), every child, the value array, then the header. */
  function Free(n: Node, at: Path): seq<Chunk>
    decreases n, 1
  {
    match n
    case String(_) => [Chunk(StringChars(at), ArrayForm)]
    case NodeArray(values) =>
      Children(values, at, |values|)
        + [Chunk(ValueArray(at), ArrayForm), Chunk(ListHeader(at), ScalarForm)]
    case NodeMap(keys, values) =>
      KeyChunks(at, |keys|) + [Chunk(KeyArray(at), ArrayForm)] + Children(values, at, |values|)
        + [Chunk(ValueArray(at), ArrayForm), Chunk(ListHeader(at), ScalarForm)]
    case ByteArray(_) => [Chunk(ByteData(at), ArrayForm), Chunk(ByteArrayHeader(at), ScalarForm)]
    case _ => []
  }

  /** AutoMpvNode::free_node with the list body run once and `delete[]` on the key array;
      this is what the destructor of AutoMpvNode is meant to run. */
  method FreeNode(n: Node, at: Path) returns (log: seq<Chunk>)
    requires WellFormed(n)
    ensures log == Free(n, at)
    decreases n, 1
  {
    match n {
      case String(_) =>
        log := [Chunk(StringChars(at), ArrayForm)];
      case NodeArray(values) =>
        log := FreeChildren(values, at);
        log := log + [Chunk(ValueArray(at), ArrayForm), Chunk(ListHeader(at), ScalarForm)];
      case NodeMap(keys, values) =>
        log := [];
        for k := 0 to |keys|
          invariant log == KeyChunks(at, k)
        {
          log := log + [Chunk(KeyChars(at, k), ArrayForm)];
        }
        log := log + [Chunk(KeyArray(at), ArrayForm)];
        var children := FreeChildren(values, at);
        log := log + children + [Chunk(ValueArray(at), ArrayForm), Chunk(ListHeader(at), ScalarForm)];
      case ByteArray(_) =>
        log := [Chunk(ByteData(at), ArrayForm), Chunk(ByteArrayHeader(at), ScalarForm)];
      case _ =>
        log := [];
    }
  }

  /** The child loop of FreeNode. */
  method FreeChildren(values: seq<Node>, at: Path) returns (log: seq<Chunk>)
    requires forall j :: 0 <= j < |values| ==> WellFormed(values[j])
    ensures log == Children(values, at, |values|)
    decreases values, 0
  {
    log := [];
    for v := 0 to |values|
      invariant log == Children(values, at, v)
    {
      var child := FreeNode(values[v], at + [v]);
      log := log + child;
    }
  }

  /*************************************************************************************
   * Properties
   *************************************************************************************/

  /** The corrected free_node releases exactly the blocks init_node allocated, each with the
      form of delete matching its form of new. */
  lemma {:induction false} FreeReleasesAllocations(n: Node, at: Path)
    requires WellFormed(n)
    ensures multiset(Free(n, at)) == Allocations(n, at)
    decreases n, 2
  {
    if n.NodeArray? {
      ChildrenReleaseAllocations(n.values, at, |n.values|);
      var ch := Children(n.values, at, |n.values|);
      assert Free(n, at) == ch + [Chunk(ValueArray(at), ArrayForm), Chunk(ListHeader(at), ScalarForm)];
    } else if n.NodeMap? {
      MapReleasesAllocations(n, at);
    }
  }

  /** FreeReleasesAllocations for NODE_MAP. */
  lemma {:induction false} MapReleasesAllocations(n: Node, at: Path)
    requires n.NodeMap? && WellFormed(n)
    ensures multiset(Free(n, at)) == Allocations(n, at)
    decreases n, 1
  {
    KeyChunksAllocated(at, |n.keys|);
    ChildrenReleaseAllocations(n.values, at, |n.values|);
    MapFreeParts(n, at);
  }

  /** The release of a NODE_MAP, as a multiset: its keys, its key array, its children, its
      value array and its header. */
  lemma MapFreeParts(n: Node, at: Path)
    requires n.NodeMap?
    ensures multiset(Free(n, at)) ==
      multiset(KeyChunks(at, |n.keys|)) + multiset(Children(n.values, at, |n.values|)) +
      multiset{Chunk(ListHeader(at), ScalarForm), Chunk(KeyArray(at), ArrayForm), Chunk(ValueArray(at), ArrayForm)}
  {
    var ks := KeyChunks(at, |n.keys|);
    var ch := Children(n.values, at, |n.values|);
    var tail := [Chunk(ValueArray(at), ArrayForm), Chunk(ListHeader(at), ScalarForm)];
    assert Free(n, at) == ks + [Chunk(KeyArray(at), ArrayForm)] + ch + tail;
  }

  lemma {:induction false} ChildrenReleaseAllocations(values: seq<Node>, at: Path, m: nat)
    requires m <= |values|
    requires forall j :: 0 <= j < |values| ==> WellFormed(values[j])
    ensures multiset(Children(values, at, m)) == ChildAllocations(values, at, m)
    decreases values, 0, m
  {
    if m > 0 {
      ChildrenReleaseAllocations(values, at, m - 1);
      FreeReleasesAllocations(values[m - 1], at + [m - 1]);
      assert Children(values, at, m) == Children(values, at, m - 1) + Free(values[m - 1], at + [m - 1]);
    }
  }

  lemma {:induction false} KeyChunksAllocated(at: Path, m: nat)
    ensures multiset(KeyChunks(at, m)) == KeyAllocations(at, m)
  {
    if m > 0 {
      KeyChunksAllocated(at, m - 1);
    }
  }

  /** The key buffers of one list are distinct blocks, all labelled with the list's path. */
  lemma {:induction false} KeyAllocationsOnce(at: Path, m: nat)
    ensures forall c :: KeyAllocations(at, m)[c] <= 1
    ensures forall c | c in KeyAllocations(at, m) :: c.block.KeyChars? && c.block.at == at && c.block.k < m
  {
    if m > 0 {
      KeyAllocationsOnce(at, m - 1);
      var last := Chunk(KeyChars(at, m - 1), ArrayForm);
      forall c ensures KeyAllocations(at, m)[c] <= 1 {
        if c == last {
          assert c !in KeyAllocations(at, m - 1);
        }
      }
    }
  }

  /** init_node allocates each block once, and every block of the subtree at `at` is
      labelled with a path that extends `at`. */
  lemma {:induction false} AllocationsOnce(n: Node, at: Path)
    ensures forall c :: Allocations(n, at)[c] <= 1
    ensures forall c | c in Allocations(n, at) :: at <= c.block.at
    decreases n, 2
  {
    match n
    case NodeArray(values) => ListAllocationsOnce(n, at);
    case NodeMap(keys, values) => ListAllocationsOnce(n, at);
    case _ =>
  }

  /** The blocks a NODE_ARRAY or NODE_MAP allocates for itself rather than for its children. */
  function OwnAllocations(n: Node, at: Path): multiset<Chunk>
    requires n.NodeArray? || n.NodeMap?
  {
    if n.NodeArray? then multiset{Chunk(ListHeader(at), ScalarForm), Chunk(ValueArray(at), ArrayForm)}
    else multiset{Chunk(ListHeader(at), ScalarForm), Chunk(KeyArray(at), ArrayForm),
                  Chunk(ValueArray(at), ArrayForm)} + KeyAllocations(at, |n.keys|)
  }

  /** A list's own blocks are distinct and carry the list's path. */
  lemma OwnAllocationsOnce(n: Node, at: Path)
    requires n.NodeArray? || n.NodeMap?
    ensures Allocations(n, at) == OwnAllocations(n, at) + ChildAllocations(n.values, at, |n.values|)
    ensures forall c :: OwnAllocations(n, at)[c] <= 1
    ensures forall c | c in OwnAllocations(n, at) :: c.block.at == at
  {
    if n.NodeMap? {
      KeyAllocationsOnce(at, |n.keys|);
    }
  }

  /** AllocationsOnce for NODE_ARRAY and NODE_MAP: the list's own blocks carry its path, its
      children's blocks carry longer ones. */
  lemma {:induction false} ListAllocationsOnce(n: Node, at: Path)
    requires n.NodeArray? || n.NodeMap?
    ensures forall c :: Allocations(n, at)[c] <= 1
    ensures forall c | c in Allocations(n, at) :: at <= c.block.at
    decreases n, 1
  {
    var own := OwnAllocations(n, at);
    var children := ChildAllocations(n.values, at, |n.values|);
    OwnAllocationsOnce(n, at);
    ChildAllocationsOnce(n.values, at, |n.values|);
    forall c ensures (own + children)[c] <= 1 {
      if c in children {
        assert c !in own;
      }
    }
  }

  lemma {:induction false} ChildAllocationsOnce(values: seq<Node>, at: Path, m: nat)
    requires m <= |values|
    ensures forall c :: ChildAllocations(values, at, m)[c] <= 1
    ensures forall c | c in ChildAllocations(values, at, m) ::
      |at| < |c.block.at| && at <= c.block.at && c.block.at[|at|] < m
    decreases values, 0, m
  {
    if m > 0 {
      var front := ChildAllocations(values, at, m - 1);
      var last := Allocations(values[m - 1], at + [m - 1]);
      ChildAllocationsOnce(values, at, m - 1);
      AllocationsOnce(values[m - 1], at + [m - 1]);
      forall c | c in last
        ensures |at| < |c.block.at| && at <= c.block.at && c.block.at[|at|] == m - 1
      {
        assert (at + [m - 1])[|at|] == m - 1;
      }
      forall c ensures (front + last)[c] <= 1 {
        if c in last {
          assert c !in front;
        }
      }
    }
  }

  /*************************************************************************************
   * What free_node as written gets wrong
   *************************************************************************************/

  /** Every block the as-written release touches for the subtree at `at` is labelled with a
      path extending `at`; the children's blocks carry strictly longer paths. */
  lemma {:induction false} AsWrittenUnder(n: Node, at: Path)
    ensures forall c | c in FreeAsWritten(n, at) :: at <= c.block.at
    decreases n, 2
  {
    if n.NodeArray? || n.NodeMap? {
      var pass := ListPassAsWritten(n.NodeMap?, n.values, at);
      PassUnder(n.NodeMap?, n.values, at);
      RepeatMembers(pass, |n.values|);
    }
  }

  lemma {:induction false} PassUnder(hasKeys: bool, values: seq<Node>, at: Path)
    ensures forall c | c in ListPassAsWritten(hasKeys, values, at) :: at <= c.block.at
    decreases values, 1
  {
    ChildrenAsWrittenUnder(values, at, |values|);
    KeyChunksAt(at, |values|);
  }

  lemma {:induction false} ChildrenAsWrittenUnder(values: seq<Node>, at: Path, m: nat)
    requires m <= |values|
    ensures forall c | c in ChildrenAsWritten(values, at, m) :: |at| < |c.block.at| && at <= c.block.at
    decreases values, 0, m
  {
    if m > 0 {
      ChildrenAsWrittenUnder(values, at, m - 1);
      AsWrittenUnder(values[m - 1], at + [m - 1]);
    }
  }

  /** The key buffers all carry the list's own path. */
  lemma {:induction false} KeyChunksAt(at: Path, m: nat)
    ensures forall c | c in KeyChunks(at, m) :: c.block.KeyChars? && c.block.at == at
  {
    if m > 0 {
      KeyChunksAt(at, m - 1);
    }
  }

  /** A log repeated m > 0 times holds the same releases as the log. */
  lemma {:induction false} RepeatMembers<T>(s: seq<T>, m: nat)
    ensures forall x | x in Repeat(s, m) :: x in s
    ensures m > 0 ==> forall x | x in s :: x in Repeat(s, m)
  {
    if m > 0 {
      RepeatMembers(s, m - 1);
    }
  }

  /** Repeating a log m times repeats each of its releases m times. */
  lemma {:induction false} RepeatCount<T>(s: seq<T>, m: nat, x: T)
    ensures multiset(Repeat(s, m))[x] == m * multiset(s)[x]
  {
    if m > 0 {
      RepeatCount(s, m - 1, x);
      assert multiset(Repeat(s, m)) == multiset(Repeat(s, m - 1)) + multiset(s);
      var k := multiset(s)[x];
      assert m * k == (m - 1) * k + k;
    }
  }

  /** As written, a list with num entries releases its value array num times, and every block
      a child releases is released at least num times: for num >= 2 these are double
      deletes, for num == 0 the value array is never released. */
  lemma ListReleasedNumTimes(n: Node, at: Path)
    requires n.NodeArray? || n.NodeMap?
    ensures multiset(FreeAsWritten(n, at))[Chunk(ValueArray(at), ArrayForm)] == |n.values|
    ensures forall v, c | 0 <= v < |n.values| && c in FreeAsWritten(n.values[v], at + [v]) ::
      multiset(FreeAsWritten(n, at))[c] >= |n.values|
  {
    var pass := ListPassAsWritten(n.NodeMap?, n.values, at);
    assert FreeAsWritten(n, at) == Repeat(pass, |n.values|) + [Chunk(ListHeader(at), ScalarForm)];
    PassesReleaseNumTimes(n.NodeMap?, n.values, at);
  }

  /** ListReleasedNumTimes, stated on the num passes of the outer loop and the header. */
  lemma PassesReleaseNumTimes(hasKeys: bool, values: seq<Node>, at: Path)
    ensures var log := Repeat(ListPassAsWritten(hasKeys, values, at), |values|)
                       + [Chunk(ListHeader(at), ScalarForm)];
      multiset(log)[Chunk(ValueArray(at), ArrayForm)] == |values| &&
      forall v, c | 0 <= v < |values| && c in FreeAsWritten(values[v], at + [v]) ::
        multiset(log)[c] >= |values|
  {
    var num := |values|;
    var pass := ListPassAsWritten(hasKeys, values, at);
    var header := Chunk(ListHeader(at), ScalarForm);
    PassReleasesValueArrayOnce(hasKeys, values, at);
    PassesCounted(pass, num, header, Chunk(ValueArray(at), ArrayForm));
    forall v, c | 0 <= v < num && c in FreeAsWritten(values[v], at + [v])
      ensures multiset(Repeat(pass, num) + [header])[c] >= num
    {
      ChildrenAsWrittenContain(values, at, num, v);
      PassesCounted(pass, num, header, c);
    }
  }

  /** A chunk of the pass occurs at least num times in num passes followed by a header, and
      a chunk occurring once in the pass and differing from the header exactly num times. */
  lemma PassesCounted(pass: seq<Chunk>, num: nat, header: Chunk, c: Chunk)
    ensures c in pass ==> multiset(Repeat(pass, num) + [header])[c] >= num
    ensures c != header && multiset(pass)[c] == 1 ==> multiset(Repeat(pass, num) + [header])[c] == num
  {
    RepeatCount(pass, num, c);
    assert multiset(Repeat(pass, num) + [header]) == multiset(Repeat(pass, num)) + multiset{header};
    var k := multiset(pass)[c];
    if c in pass {
      assert num * k >= num * 1;
    }
  }

  /** One pass of the outer loop releases the list's value array once. */
  lemma PassReleasesValueArrayOnce(hasKeys: bool, values: seq<Node>, at: Path)
    ensures multiset(ListPassAsWritten(hasKeys, values, at))[Chunk(ValueArray(at), ArrayForm)] == 1
  {
    var valueArray := Chunk(ValueArray(at), ArrayForm);
    var keyPart := if hasKeys then KeyChunks(at, |values|) + [Chunk(KeyArray(at), ScalarForm)] else [];
    var children := ChildrenAsWritten(values, at, |values|);
    ChildrenAsWrittenUnder(values, at, |values|);
    KeyChunksAt(at, |values|);
    assert valueArray !in keyPart && valueArray !in children;
    assert multiset(ListPassAsWritten(hasKeys, values, at)) ==
      multiset(keyPart) + multiset(children) + multiset{valueArray};
  }

  lemma {:induction false} ChildrenAsWrittenContain(values: seq<Node>, at: Path, m: nat, v: nat)
    requires v < m <= |values|
    ensures forall c | c in FreeAsWritten(values[v], at + [v]) :: c in ChildrenAsWritten(values, at, m)
    decreases m
  {
    if v < m - 1 {
      ChildrenAsWrittenContain(values, at, m - 1, v);
    }
  }

  /** As written, an empty list (num == 0) releases only its header: the value array, and the
      key array of a map, which init_node did allocate, leak. */
  lemma EmptyListLeaks(n: Node, at: Path)
    requires (n.NodeArray? || n.NodeMap?) && n.values == []
    ensures FreeAsWritten(n, at) == [Chunk(ListHeader(at), ScalarForm)]
    ensures Chunk(ValueArray(at), ArrayForm) in Allocations(n, at)
    ensures n.NodeMap? ==> Chunk(KeyArray(at), ArrayForm) in Allocations(n, at)
  {
  }

  /** As written, a map with at least one entry deletes its key array with `delete`, a form
      that does not match the `new char*[num]` that allocated it. */
  lemma KeyArrayWrongForm(n: Node, at: Path)
    requires n.NodeMap? && |n.values| > 0
    ensures Chunk(KeyArray(at), ScalarForm) in FreeAsWritten(n, at)
    ensures Chunk(KeyArray(at), ScalarForm) !in Allocations(n, at)
    ensures Chunk(KeyArray(at), ArrayForm) in Allocations(n, at)
  {
    var pass := ListPassAsWritten(true, n.values, at);
    assert Chunk(KeyArray(at), ScalarForm) in pass;
    RepeatMembers(pass, |n.values|);
    var children := ChildAllocations(n.values, at, |n.values|);
    ChildAllocationsOnce(n.values, at, |n.values|);
    KeyAllocationsOnce(at, |n.keys|);
    assert Chunk(KeyArray(at), ScalarForm) !in children;
  }

  /** The corrected release deletes each allocated block exactly once and nothing else. */
  lemma FreeReleasesEachOnce(n: Node, at: Path)
    requires WellFormed(n)
    ensures forall c :: multiset(Free(n, at))[c] == if c in Allocations(n, at) then 1 else 0
  {
    FreeReleasesAllocations(n, at);
    AllocationsOnce(n, at);
  }

  /** A list of two or more entries whose first value is a string, such as the map
      {"a": "x", "b": "y"}: as written, that string is deleted at least twice. */
  lemma StringValueDeletedTwice(n: Node, at: Path)
    requires n.NodeArray? || n.NodeMap?
    requires |n.values| >= 2 && n.values[0].String?
    ensures multiset(FreeAsWritten(n, at))[Chunk(StringChars(at + [0]), ArrayForm)] >= 2
  {
    ListReleasedNumTimes(n, at);
    assert Chunk(StringChars(at + [0]), ArrayForm) in FreeAsWritten(n.values[0], at + [0]);
  }

  /** For the same list the corrected release deletes that string exactly once. */
  lemma StringValueDeletedOnce(n: Node, at: Path)
    requires n.NodeArray? || n.NodeMap?
    requires |n.values| >= 1 && n.values[0].String?
    requires WellFormed(n)
    ensures multiset(Free(n, at))[Chunk(StringChars(at + [0]), ArrayForm)] == 1
  {
    var c := Chunk(StringChars(at + [0]), ArrayForm);
    FreeReleasesEachOnce(n, at);
    ChildAllocationsContain(n.values, at, |n.values|, 0);
    assert c in Allocations(n.values[0], at + [0]);
    OwnAllocationsOnce(n, at);
  }

  lemma {:induction false} ChildAllocationsContain(values: seq<Node>, at: Path, m: nat, v: nat)
    requires v < m <= |values|
    ensures forall c | c in Allocations(values[v], at + [v]) :: c in ChildAllocations(values, at, m)
    decreases m
  {
    if v < m - 1 {
      ChildAllocationsContain(values, at, m - 1, v);
    }
  }
}
