/** The resumable scan-result cursor of the Skywalk interface and the background-scan cache list, over
    the node tree in its key order. */
module ScanCursor {
  import opened MachineTypes

  const END_OF_RESULTS: nat := 5
  const REFUSED: nat := 22
  const BGSCAN_MAX_NETWORKS: nat := 140

  /** A cached node: whether it has a usable channel, and its BSSID. */
  datatype Node = Node(hasChannel: bool, bssid: Mac)

  /** The cursor: the index of the next node in tree order (NoNode is null) and the flag that
      the last result was delivered. */
  datatype Cursor = Cursor(next: Index, wrapping: bool)
  datatype Index = NoNode | NodeAt(i: nat)

  datatype Result = Delivered(i: nat) | Code(code: nat) | Success | BadArgument | Error

  predicate Renderable(n: Node) {
    n.hasChannel && n.bssid != ZERO_MAC
  }

  // ---------- specification ----------

  const RESET := Cursor(NoNode, false)

  function NextRenderable(tree: seq<Node>, from: nat): Index
    decreases |tree| - from
  {
    if from >= |tree| then NoNode
    else if Renderable(tree[from]) then NodeAt(from)
    else NextRenderable(tree, from + 1)
  }

  function RenderableFrom(tree: seq<Node>, from: nat): (r: seq<nat>)
    ensures forall k | 0 <= k < |r| :: from <= r[k] < |tree| && Renderable(tree[r[k]])
    decreases |tree| - from
  {
    if from >= |tree| then []
    else (if Renderable(tree[from]) then [from] else []) + RenderableFrom(tree, from + 1)
  }

  /** The renderable nodes in tree order. */
  function RenderableNodes(tree: seq<Node>): seq<nat> {
    RenderableFrom(tree, 0)
  }

  /** The node, if any, is one of the tree. */
  predicate InTree(tree: seq<Node>, c: Cursor) {
    c.next.NodeAt? ==> c.next.i < |tree|
  }

  function GetResult(tree: seq<Node>, c: Cursor): (Cursor, Result)
    requires InTree(tree, c)
  {
    var start := if c.next.NoNode? && !c.wrapping then NextRenderable(tree, 0) else c.next;
    if start.NoNode? then (Cursor(NoNode, false), Code(END_OF_RESULTS))
    else
      var after := NextRenderable(tree, start.i + 1);
      (Cursor(after, c.wrapping || after.NoNode?), Delivered(start.i))
  }

  datatype Op =
    | GetOp
    | AbortOp
    | BgNetworkOp(data: bool)
    | ScanReqOp(aboveInit: bool)
    | WclScanReqOp(req: bool, aboveInit: bool)

  /** One call over a tree. A scan request is refused while the end code is still to come. */
  function Step(tree: seq<Node>, c: Cursor, op: Op): (Cursor, Result)
    requires InTree(tree, c)
  {
    match op
    case GetOp => GetResult(tree, c)
    case AbortOp => (RESET, Success)
    case BgNetworkOp(data) => if data then (RESET, Success) else (c, BadArgument)
    case ScanReqOp(aboveInit) => if c.wrapping || !aboveInit then (c, Code(REFUSED)) else (RESET, Success)
    case WclScanReqOp(req, aboveInit) =>
      if !req then (c, BadArgument) else if c.wrapping || !aboveInit then (c, Code(REFUSED)) else (RESET, Success)
  }

  /** The abstract machine: a position in 0..n over the n renderable nodes. */
  function PositionStep(n: nat, p: nat, op: Op): nat {
    match op
    case GetOp => if p < n then p + 1 else 0
    case AbortOp => 0
    case BgNetworkOp(data) => if data then 0 else p
    case ScanReqOp(aboveInit) => if (p == n && n > 0) || !aboveInit then p else 0
    case WclScanReqOp(req, aboveInit) => if !req || (p == n && n > 0) || !aboveInit then p else 0
  }

  /** The cursor that stands for a position: before the first node, at a node, or past the last. */
  function CursorAt(tree: seq<Node>, p: nat): Cursor
    requires p <= |RenderableNodes(tree)|
  {
    var nodes := RenderableNodes(tree);
    if p == 0 then RESET
    else if p < |nodes| then Cursor(NodeAt(nodes[p]), false)
    else Cursor(NoNode, true)
  }

  function Positions(n: nat, ops: seq<Op>): (p: nat)
    ensures p <= n
  {
    if ops == [] then 0 else PositionStep(n, Positions(n, ops[..|ops| - 1]), ops[|ops| - 1])
  }

  /** The cursor after a run of calls over an unchanged tree, from the reset state. */
  ghost function CursorRun(tree: seq<Node>, ops: seq<Op>): (c: Cursor)
    ensures InTree(tree, c)
  {
    if ops == [] then RESET
    else
      var c := CursorRun(tree, ops[..|ops| - 1]);
      StepStaysInTree(tree, c, ops[|ops| - 1]);
      Step(tree, c, ops[|ops| - 1]).0
  }

  // ---------- properties ----------

  lemma {:induction false} NextIsFirst(tree: seq<Node>, from: nat)
    ensures NextRenderable(tree, from)
            == if RenderableFrom(tree, from) == [] then NoNode else NodeAt(RenderableFrom(tree, from)[0])
    decreases |tree| - from
  {
    if from < |tree| && !Renderable(tree[from]) {
      NextIsFirst(tree, from + 1);
    }
  }

  lemma StepStaysInTree(tree: seq<Node>, c: Cursor, op: Op)
    requires InTree(tree, c)
    ensures InTree(tree, Step(tree, c, op).0)
  {
    NextInTree(tree, 0);
    if c.next.NodeAt? {
      NextInTree(tree, c.next.i + 1);
    }
    var start := NextRenderable(tree, 0);
    if start.NodeAt? {
      NextInTree(tree, start.i + 1);
    }
    hide NextRenderable;
  }

  lemma NextInTree(tree: seq<Node>, from: nat)
    ensures InTree(tree, Cursor(NextRenderable(tree, from), false))
  {
    NextIsFirst(tree, from);
  }

  lemma RenderableStep(tree: seq<Node>, from: nat)
    requires RenderableFrom(tree, from) != []
    ensures from < |tree|
    ensures RenderableFrom(tree, from)
            == (if Renderable(tree[from]) then [from] else []) + RenderableFrom(tree, from + 1)
  {
  }

  lemma RenderableUnfold(tree: seq<Node>, from: nat)
    ensures RenderableFrom(tree, from)
            == if from >= |tree| then []
               else (if Renderable(tree[from]) then [from] else []) + RenderableFrom(tree, from + 1)
  {
  }

  /** Behind the k-th renderable node come the later ones. */
  lemma {:induction false} NodesBehind(tree: seq<Node>, from: nat, k: nat)
    requires k < |RenderableFrom(tree, from)|
    ensures RenderableFrom(tree, RenderableFrom(tree, from)[k] + 1) == RenderableFrom(tree, from)[k + 1..]
    decreases |tree| - from
  {
    hide RenderableFrom;
    RenderableStep(tree, from);
    var nodes, rest := RenderableFrom(tree, from), RenderableFrom(tree, from + 1);
    if Renderable(tree[from]) {
      DropCons(from, rest, k);
      if k > 0 {
        NodesBehind(tree, from + 1, k - 1);
      }
    } else {
      assert nodes == rest;
      NodesBehind(tree, from + 1, k);
    }
  }

  lemma DropCons(x: nat, rest: seq<nat>, k: nat)
    requires k <= |rest|
    ensures ([x] + rest)[k + 1..] == rest[k..]
    ensures k == 0 ==> ([x] + rest)[k] == x && rest[k..] == rest
    ensures k > 0 ==> ([x] + rest)[k] == rest[k - 1]
  {
  }

  lemma NextNode(tree: seq<Node>, k: nat)
    requires k < |RenderableNodes(tree)|
    ensures var nodes := RenderableNodes(tree);
            NextRenderable(tree, nodes[k] + 1) == if k + 1 < |nodes| then NodeAt(nodes[k + 1]) else NoNode
  {
    NodesBehind(tree, 0, k);
    NextIsFirst(tree, RenderableNodes(tree)[k] + 1);
  }

  /** One call at a position: a get delivers exactly the node at the position, or the end code; a scan request is
      refused exactly while the end code is still to come or below the init state. */
  lemma StepAtPosition(tree: seq<Node>, p: nat, op: Op)
    requires p <= |RenderableNodes(tree)|
    ensures InTree(tree, CursorAt(tree, p))
    ensures var n := |RenderableNodes(tree)|;
            var (c, r) := Step(tree, CursorAt(tree, p), op);
            && PositionStep(n, p, op) <= n
            && c == CursorAt(tree, PositionStep(n, p, op))
            && r == match op
                    case GetOp => if p < n then Delivered(RenderableNodes(tree)[p]) else Code(5)
                    case AbortOp => Success
                    case BgNetworkOp(data) => if data then Success else BadArgument
                    case ScanReqOp(aboveInit) => if (p == n && n > 0) || !aboveInit then Code(22) else Success
                    case WclScanReqOp(req, aboveInit) =>
                      if !req then BadArgument
                      else if (p == n && n > 0) || !aboveInit then Code(22) else Success
  {
    NextIsFirst(tree, 0);
    if p < |RenderableNodes(tree)| {
      NextNode(tree, p);
    }
  }

  /** Over every interleaving of gets, aborts, new background networks and scan requests on an unchanged
      tree, the cursor stands for the abstract position. */
  lemma {:induction false} CursorRunRefines(tree: seq<Node>, ops: seq<Op>)
    ensures CursorRun(tree, ops) == CursorAt(tree, Positions(|RenderableNodes(tree)|, ops))
  {
    if ops != [] {
      CursorRunRefines(tree, ops[..|ops| - 1]);
      StepAtPosition(tree, Positions(|RenderableNodes(tree)|, ops[..|ops| - 1]), ops[|ops| - 1]);
    }
  }

  function Gets(k: nat): seq<Op> {
    seq(k, _ => GetOp)
  }

  /** From the reset position, p more gets lead to position p, and n + 1 back to the reset position. */
  lemma {:induction false} GetsFromReset(n: nat, start: nat, p: nat)
    requires Positions(n, Gets(start)) == 0 && p <= n + 1
    ensures Positions(n, Gets(start + p)) == if p <= n then p else 0
  {
    if p > 0 {
      GetsFromReset(n, start, p - 1);
      assert Gets(start + p)[..start + p - 1] == Gets(start + (p - 1));
    }
  }

  lemma {:induction false} RoundsEndAtReset(n: nat, rounds: nat)
    ensures Positions(n, Gets(rounds * (n + 1))) == 0
  {
    if rounds > 0 {
      var start := (rounds - 1) * (n + 1);
      RoundsEndAtReset(n, rounds - 1);
      GetsFromReset(n, start, n + 1);
      assert start + (n + 1) == rounds * (n + 1);
    }
  }

  /** The result of the k-th get (from 0) after a reset. */
  ghost function GetNumber(tree: seq<Node>, k: nat): Result {
    GetResult(tree, CursorRun(tree, Gets(k))).1
  }

  /** Repeated gets go round: in every round of n + 1 gets each of the n renderable nodes comes once, in
      tree order, then one end code, and the cursor is back at reset. */
  lemma GetsCycle(tree: seq<Node>, rounds: nat, p: nat)
    requires p <= |RenderableNodes(tree)|
    ensures var nodes := RenderableNodes(tree);
            var start := rounds * (|nodes| + 1);
            && CursorRun(tree, Gets(start)) == RESET
            && GetNumber(tree, start + p) == if p < |nodes| then Delivered(nodes[p]) else Code(5)
  {
    var n := |RenderableNodes(tree)|;
    var start := rounds * (n + 1);
    RoundsEndAtReset(n, rounds);
    CursorRunRefines(tree, Gets(start));
    GetsFromReset(n, start, p);
    CursorRunRefines(tree, Gets(start + p));
    StepAtPosition(tree, p, GetOp);
    hide CursorRun, GetResult, CursorAt, RenderableNodes, Positions;
  }

  /** A node with a channel and a BSSID byte other than zero. */
  predicate IsVisible(n: Node) {
    n.hasChannel && exists k | 0 <= k < 6 :: n.bssid[k] != 0
  }

  lemma RenderableMeaning(n: Node)
    ensures Renderable(n) <==> IsVisible(n)
  {
    if n.bssid != ZERO_MAC {
      assert exists k | 0 <= k < 6 :: n.bssid[k] != ZERO_MAC[k];
    }
  }

  /** The list holds each such node exactly once, in ascending tree order, and no other node. */
  lemma {:induction false} RenderableNodesMeaning(tree: seq<Node>, from: nat)
    ensures forall i: nat :: i in RenderableFrom(tree, from)
                             <==> from <= i < |tree| && IsVisible(tree[i])
    ensures forall j, k | 0 <= j < k < |RenderableFrom(tree, from)| ::
              RenderableFrom(tree, from)[j] < RenderableFrom(tree, from)[k]
    decreases |tree| - from
  {
    hide RenderableFrom, Renderable, IsVisible;
    RenderableUnfold(tree, from);
    if from < |tree| {
      RenderableNodesMeaning(tree, from + 1);
      RenderableMeaning(tree[from]);
      if Renderable(tree[from]) {
        Prepended(from, RenderableFrom(tree, from + 1));
      }
    }
  }

  lemma Prepended(x: nat, rest: seq<nat>)
    requires forall y: nat | y in rest :: x < y
    requires forall j, k | 0 <= j < k < |rest| :: rest[j] < rest[k]
    ensures forall y: nat :: y in [x] + rest <==> y == x || y in rest
    ensures forall j, k | 0 <= j < k < |[x] + rest| :: ([x] + rest)[j] < ([x] + rest)[k]
  {
    var all := [x] + rest;
    forall j, k | 0 <= j < k < |all| ensures all[j] < all[k] {
      assert all[k] == rest[k - 1] && rest[k - 1] in rest;
    }
  }

  /** Whatever happens to the tree between calls, the wrapping flag comes with a null cursor. */
  lemma WrappingMeansNull(tree: seq<Node>, c: Cursor, op: Op)
    requires InTree(tree, c) && (c.wrapping ==> c.next.NoNode?)
    ensures var r := Step(tree, c, op).0; r.wrapping ==> r.next.NoNode?
  {
  }

  /** The cache list holds exactly what the first gets of a cycle deliver. */
  lemma EnumerationsAgree(tree: seq<Node>, cache: seq<nat>)
    requires cache == RenderableNodes(tree)[..CacheSize(tree)]
    ensures forall k | 0 <= k < |cache| :: GetNumber(tree, k) == Delivered(cache[k])
    ensures |cache| == (if |RenderableNodes(tree)| < 140 then |RenderableNodes(tree)| else 140)
    ensures |cache| < 140 ==> GetNumber(tree, |cache|) == Code(5)
  {
    forall k | 0 <= k < |cache| ensures GetNumber(tree, k) == Delivered(cache[k]) {
      GetsCycle(tree, 0, k);
    }
    GetsCycle(tree, 0, |cache|);
  }

  function CacheSize(tree: seq<Node>): nat {
    var n := |RenderableNodes(tree)|;
    if n < BGSCAN_MAX_NETWORKS then n else BGSCAN_MAX_NETWORKS
  }

  // ---------- the code ----------

  /** ORs the BSSID bytes, as `hasRenderableBssid` does. */
  method IsRenderableScanNode(n: Node) returns (b: bool)
    ensures b <==> Renderable(n)
    ensures b <==> IsVisible(n)
  {
    if !n.hasChannel {
      return false;
    }
    var any := false;
    for i := 0 to 6
      invariant !any <==> forall k | 0 <= k < i :: n.bssid[k] == 0
    {
      any := any || n.bssid[i] != 0;
    }
    RenderableMeaning(n);
    return any;
  }

  method NextRenderableScanNode(tree: seq<Node>, from: nat) returns (next: Index)
    ensures next == NextRenderable(tree, from)
  {
    var i := from;
    while i < |tree|
      invariant NextRenderable(tree, from) == NextRenderable(tree, i)
    {
      var b := IsRenderableScanNode(tree[i]);
      if b {
        return NodeAt(i);
      }
      i := i + 1;
    }
    return NoNode;
  }

  /** The background-scan cache list: renderable nodes in tree order, up to the capacity. `data` says
      whether the caller passed a list to fill. */
  method GetBgscanCacheResult(tree: seq<Node>, data: bool) returns (r: Result, entries: seq<nat>)
    ensures r == if data then Success else Error
    ensures entries == if data then RenderableNodes(tree)[..CacheSize(tree)] else []
  {
    hide RenderableFrom, Renderable, IsVisible;
    entries := [];
    if !data {
      return Error, [];
    }
    var i := 0;
    while i < |tree|
      invariant i <= |tree| && |entries| <= BGSCAN_MAX_NETWORKS
      invariant RenderableNodes(tree) == entries + RenderableFrom(tree, i)
    {
      if |entries| >= BGSCAN_MAX_NETWORKS {
        break;
      }
      RenderableUnfold(tree, i);
      var b := IsRenderableScanNode(tree[i]);
      if b {
        entries := entries + [i];
      }
      i := i + 1;
    }
    RenderableUnfold(tree, i);
    r := Success;
  }

  /** The two cursor fields of the interface. */
  class Interface {
    var nextNodeToSend: Index
    var scanResultWrapping: bool

    ghost function State(): Cursor
      reads this
    {
      Cursor(nextNodeToSend, scanResultWrapping)
    }

    ghost predicate Valid()
      reads this
    {
      scanResultWrapping ==> nextNodeToSend.NoNode?
    }

    constructor ()
      ensures Valid() && State() == RESET
    {
      nextNodeToSend, scanResultWrapping := NoNode, false;
    }

    method GetScanResult(tree: seq<Node>) returns (r: Result)
      requires Valid() && InTree(tree, State())
      modifies this
      ensures Valid() && InTree(tree, State())
      ensures (State(), r) == Step(tree, old(State()), GetOp)
    {
      StepStaysInTree(tree, State(), GetOp);
      if nextNodeToSend.NoNode? {
        if scanResultWrapping {
          scanResultWrapping := false;
          return Code(END_OF_RESULTS);
        } else {
          nextNodeToSend := NextRenderableScanNode(tree, 0);
          if nextNodeToSend.NoNode? {
            return Code(END_OF_RESULTS);
          }
        }
      }
      r := Delivered(nextNodeToSend.i);
      nextNodeToSend := NextRenderableScanNode(tree, nextNodeToSend.i + 1);
      if nextNodeToSend.NoNode? {
        scanResultWrapping := true;
      }
    }

    method SetWclScanAbort(ghost tree: seq<Node>) returns (r: Result)
      requires Valid() && InTree(tree, State())
      modifies this
      ensures Valid() && (State(), r) == Step(tree, old(State()), AbortOp)
    {
      nextNodeToSend, scanResultWrapping := NoNode, false;
      return Success;
    }

    method SetWclConfigBgNetwork(data: bool, ghost tree: seq<Node>) returns (r: Result)
      requires Valid() && InTree(tree, State())
      modifies this
      ensures Valid() && (State(), r) == Step(tree, old(State()), BgNetworkOp(data))
    {
      if !data {
        return BadArgument;
      }
      nextNodeToSend, scanResultWrapping := NoNode, false;
      return Success;
    }

    method SetScanReq(aboveInit: bool, ghost tree: seq<Node>) returns (r: Result)
      requires Valid() && InTree(tree, State())
      modifies this
      ensures Valid() && (State(), r) == Step(tree, old(State()), ScanReqOp(aboveInit))
    {
      if scanResultWrapping {
        return Code(REFUSED);
      }
      if !aboveInit {
        return Code(REFUSED);
      }
      nextNodeToSend, scanResultWrapping := NoNode, false;
      return Success;
    }

    method SetWclScanReq(req: bool, aboveInit: bool, ghost tree: seq<Node>) returns (r: Result)
      requires Valid() && InTree(tree, State())
      modifies this
      ensures Valid() && (State(), r) == Step(tree, old(State()), WclScanReqOp(req, aboveInit))
    {
      if !req {
        return BadArgument;
      }
      if scanResultWrapping {
        return Code(REFUSED);
      }
      if !aboveInit {
        return Code(REFUSED);
      }
      nextNodeToSend, scanResultWrapping := NoNode, false;
      return Success;
    }
  }
}
