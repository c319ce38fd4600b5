/**
  The part of Gwen's control base class (Gwen::Controls::Base) and of its
  canvas that a window relies on: every control lives in an arena under a
  handle; each control but the canvas has a parent, and each control keeps
  its children in z-order (the last child is drawn on top). The canvas keeps
  the queue of controls waiting for deferred deletion.

  The base class is not part of this model; its operations are stated here
  as the window uses them: SetParent detaches a control from its old parent
  and appends it to the new parent's children, BringToFront moves a control
  to the end of its parent's children, DelayedDelete appends to the canvas's
  queue (without removing repeats), SetHidden sets the hidden flag. Every call
  is also appended to `log`, so the order of calls stays observable.
 */
module ControlTree {

  type Handle = nat

  datatype Option<T> = None | Some(value: T)

  /** Window is what gwen_cast<WindowControl> accepts; Overlay is a modal overlay. */
  datatype Kind = Plain | Window | Overlay

  /** A call the window makes on the base class, the canvas or its listeners. */
  datatype Call =
    | SetParentCall(control: Handle, newParent: Handle)
    | BringToFrontCall(control: Handle)
    | SetHiddenCall(control: Handle, hidden: bool)
    | DelayedDeleteCall(control: Handle)
    | WindowClosedCall(window: Handle)

  predicate Distinct(s: seq<Handle>) {
    forall i, j :: 0 <= i < j < |s| ==> s[i] != s[j]
  }

  predicate IsWindow(kind: map<Handle, Kind>, h: Handle) {
    h in kind && kind[h] == Window
  }

  /** s without x, the other handles in their order. */
  function Remove(s: seq<Handle>, x: Handle): (r: seq<Handle>)
    ensures forall y :: y in r <==> y in s && y != x
    ensures Distinct(s) ==> Distinct(r)
    ensures |r| <= |s|
  {
    if s == [] then []
    else if s[0] == x then Remove(s[1..], x)
    else
      assert Distinct(s) ==> s[0] !in s[1..] && Distinct(s[1..]) by {
        if Distinct(s) {
          DistinctTail(s);
        }
      }
      [s[0]] + Remove(s[1..], x)
  }

  /** Removing x commutes with appending another handle. */
  lemma {:induction false} RemoveAppend(s: seq<Handle>, m: Handle, x: Handle)
    requires m != x
    ensures Remove(s + [m], x) == Remove(s, x) + [m]
  {
    if s != [] {
      assert (s + [m])[1..] == s[1..] + [m];
      RemoveAppend(s[1..], m, x);
    }
  }

  /** Removing x from s + [x] gives s back when s does not hold x. */
  lemma {:induction false} RemoveLast(s: seq<Handle>, x: Handle)
    requires x !in s
    ensures Remove(s + [x], x) == s
  {
    if s == [] {
      assert [x][1..] == [];
    } else {
      assert (s + [x])[1..] == s[1..] + [x];
      RemoveLast(s[1..], x);
      assert [s[0]] + s[1..] == s;
    }
  }

  lemma DistinctTail(s: seq<Handle>)
    requires Distinct(s) && s != []
    ensures s[0] !in s[1..] && Distinct(s[1..])
  {
    forall k | 0 <= k < |s| - 1
      ensures s[1..][k] != s[0]
    {
      assert s[1..][k] == s[k + 1];
    }
  }

  /** The top-most window among siblings s, that is the last window in s. */
  function TopWindow(s: seq<Handle>, kind: map<Handle, Kind>): (top: Option<Handle>)
    ensures top.Some? ==> top.value in s && IsWindow(kind, top.value)
    ensures top.None? ==> forall i :: 0 <= i < |s| ==> !IsWindow(kind, s[i])
    decreases |s|
  {
    if s == [] then None
    else if IsWindow(kind, s[|s| - 1]) then Some(s[|s| - 1])
    else TopWindow(s[..|s| - 1], kind)
  }

  /** w is the top window exactly when w is a window of s and no window
      follows it in s. */
  lemma {:induction false} TopWindowIsLastWindow(s: seq<Handle>, kind: map<Handle, Kind>, w: Handle)
    ensures TopWindow(s, kind) == Some(w) <==>
            exists k :: 0 <= k < |s| && s[k] == w && IsWindow(kind, w) &&
                        forall j :: k < j < |s| ==> !IsWindow(kind, s[j])
    decreases |s|
  {
    if s != [] {
      var n := |s| - 1;
      var init := s[..n];
      TopWindowIsLastWindow(init, kind, w);
      if IsWindow(kind, s[n]) {
        if s[n] == w {
          assert 0 <= n < |s| && s[n] == w;
        }
      } else {
        if TopWindow(s, kind) == Some(w) {
          var k :| 0 <= k < |init| && init[k] == w && IsWindow(kind, w) &&
                   forall j :: k < j < |init| ==> !IsWindow(kind, init[j]);
          assert s[k] == w && forall j :: k < j < |s| ==> !IsWindow(kind, s[j]);
        }
        if k :| 0 <= k < |s| && s[k] == w && IsWindow(kind, w) &&
                forall j :: k < j < |s| ==> !IsWindow(kind, s[j]) {
          assert k < n;
          assert init[k] == w && forall j :: k < j < |init| ==> !IsWindow(kind, init[j]);
        }
      }
    }
  }

  /** A window moved to the end of its siblings is the top window. */
  lemma FrontWindowIsTop(s: seq<Handle>, kind: map<Handle, Kind>, w: Handle)
    requires IsWindow(kind, w)
    ensures TopWindow(Remove(s, w) + [w], kind) == Some(w)
  {
  }

  /** A window whose siblings are no windows is the top window. */
  lemma OnlyWindowIsTop(s: seq<Handle>, kind: map<Handle, Kind>, w: Handle)
    requires w in s && IsWindow(kind, w)
    requires forall i :: 0 <= i < |s| && s[i] != w ==> !IsWindow(kind, s[i])
    ensures TopWindow(s, kind) == Some(w)
  {
    var k :| 0 <= k < |s| && s[k] == w;
    var last :| k <= last < |s| && s[last] == w && forall j :: last < j < |s| ==> s[j] != w by {
      LastOccurrence(s, w, k);
    }
    TopWindowIsLastWindow(s, kind, w);
  }

  lemma {:induction false} LastOccurrence(s: seq<Handle>, w: Handle, k: nat)
    requires k < |s| && s[k] == w
    ensures exists last :: k <= last < |s| && s[last] == w && forall j :: last < j < |s| ==> s[j] != w
    decreases |s| - k
  {
    if forall j :: k < j < |s| ==> s[j] != w {
    } else {
      var j :| k < j < |s| && s[j] == w;
      LastOccurrence(s, w, j);
    }
  }

  /** The children map after control c leaves the parent it has in `parent`. */
  function Detach(children: map<Handle, seq<Handle>>, parent: map<Handle, Handle>, c: Handle): map<Handle, seq<Handle>> {
    if c in parent && parent[c] in children then children[parent[c] := Remove(children[parent[c]], c)] else children
  }

  /** The children map after SetParent(c, p): unchanged when p already is c's
      parent, otherwise c leaves its old parent and goes on top of p's children. */
  function Moved(children: map<Handle, seq<Handle>>, parent: map<Handle, Handle>, c: Handle, p: Handle): map<Handle, seq<Handle>>
    requires p in children
  {
    if c in parent && parent[c] == p then children
    else var d := Detach(children, parent, c); d[p := d[p] + [c]]
  }

  /** The children map after BringToFront(c): c goes to the end of its parent's children. */
  function Fronted(children: map<Handle, seq<Handle>>, parent: map<Handle, Handle>, c: Handle): map<Handle, seq<Handle>> {
    if c in parent && parent[c] in children then children[parent[c] := Remove(children[parent[c]], c) + [c]] else children
  }

  /** Bringing to front a control that already is last among its siblings,
      and listed there once, changes nothing. */
  lemma FrontedLast(children: map<Handle, seq<Handle>>, parent: map<Handle, Handle>, c: Handle, s: seq<Handle>)
    requires c in parent && parent[c] in children && children[parent[c]] == s + [c] && c !in s
    ensures Fronted(children, parent, c) == children
  {
    RemoveLast(s, c);
  }

  /** c's parent link, if it has one, belongs to a known control and points at
      a control that lists c among its children. */
  ghost predicate ParentLinked(kind: map<Handle, Kind>, parent: map<Handle, Handle>, children: map<Handle, seq<Handle>>, c: Handle) {
    c in parent ==> c in kind && parent[c] in kind && parent[c] in children && c in children[parent[c]]
  }

  /** q has a child list exactly when it is a known control; every child q
      lists links back to q, and q lists none twice. */
  ghost predicate ChildrenLinked(kind: map<Handle, Kind>, parent: map<Handle, Handle>, children: map<Handle, seq<Handle>>, q: Handle) {
    && (q in children <==> q in kind)
    && (q in children ==> Distinct(children[q]) && forall x :: x in children[q] ==> x in parent && parent[x] == q)
  }

  /** Parent links and child lists agree, and no child list repeats a handle. */
  ghost predicate Consistent(kind: map<Handle, Kind>, parent: map<Handle, Handle>, children: map<Handle, seq<Handle>>) {
    && (forall c :: ParentLinked(kind, parent, children, c))
    && (forall q :: ChildrenLinked(kind, parent, children, q))
  }

  lemma DistinctAppend(s: seq<Handle>, x: Handle)
    requires Distinct(s) && x !in s
    ensures Distinct(s + [x])
  {
    forall i, j | 0 <= i < j < |s| + 1
      ensures (s + [x])[i] != (s + [x])[j]
    {
      if j == |s| {
        assert (s + [x])[i] == s[i];
      }
    }
  }

  /** The tree is consistent when the child lists hold exactly the controls
      whose parent link points at them, without repeats. */
  lemma ConsistentByMembership(kind: map<Handle, Kind>, parent: map<Handle, Handle>, children: map<Handle, seq<Handle>>)
    requires forall q :: q in children <==> q in kind
    requires forall c :: c in parent ==> c in kind && parent[c] in kind
    requires forall q, x :: q in children ==> (x in children[q] <==> x in parent && parent[x] == q)
    requires forall q :: q in children ==> Distinct(children[q])
    ensures Consistent(kind, parent, children)
  {
    forall c
      ensures ParentLinked(kind, parent, children, c)
    {
    }
    forall q
      ensures ChildrenLinked(kind, parent, children, q)
    {
    }
  }

  /** Adding a fresh control h under p keeps the tree consistent. */
  lemma NewKeepsConsistent(kind: map<Handle, Kind>, parent: map<Handle, Handle>, children: map<Handle, seq<Handle>>,
                           h: Handle, k: Kind, p: Handle)
    requires Consistent(kind, parent, children) && p in kind && p in children && h !in kind
    ensures Consistent(kind[h := k], parent[h := p], children[p := children[p] + [h]][h := []])
  {
    var ki, pa, ch := kind[h := k], parent[h := p], children[p := children[p] + [h]][h := []];
    assert ChildrenLinked(kind, parent, children, p) && ParentLinked(kind, parent, children, h);
    DistinctAppend(children[p], h);
    forall c
      ensures ParentLinked(ki, pa, ch, c)
    {
      assert ParentLinked(kind, parent, children, c);
    }
    forall q
      ensures ChildrenLinked(ki, pa, ch, q)
    {
      assert ChildrenLinked(kind, parent, children, q);
    }
  }

  /** After Detach, a child list holds what it held before, except c. */
  lemma DetachMember(kind: map<Handle, Kind>, parent: map<Handle, Handle>, children: map<Handle, seq<Handle>>,
                     c: Handle, q: Handle, x: Handle)
    requires Consistent(kind, parent, children) && q in children
    ensures q in Detach(children, parent, c)
    ensures x in Detach(children, parent, c)[q] <==> x in children[q] && x != c
  {
    assert ChildrenLinked(kind, parent, children, q);
    assert ParentLinked(kind, parent, children, c);
  }

  /** Detach keeps every child list free of repeats. */
  lemma DetachDistinct(kind: map<Handle, Kind>, parent: map<Handle, Handle>, children: map<Handle, seq<Handle>>,
                       c: Handle, q: Handle)
    requires Consistent(kind, parent, children) && q in children
    ensures Distinct(Detach(children, parent, c)[q])
  {
    assert ChildrenLinked(kind, parent, children, q);
  }

  /** Moving c under a new parent p keeps the tree consistent. */
  lemma MoveKeepsConsistent(kind: map<Handle, Kind>, parent: map<Handle, Handle>, children: map<Handle, seq<Handle>>,
                            c: Handle, p: Handle)
    requires Consistent(kind, parent, children) && c in kind && p in kind && p in children
    ensures Consistent(kind, parent[c := p], Moved(children, parent, c, p))
  {
    if c in parent && parent[c] == p {
      assert parent[c := p] == parent;
      return;
    }
    var d := Detach(children, parent, c);
    var pa, ch := parent[c := p], d[p := d[p] + [c]];
    forall q
      ensures q in ch <==> q in kind
    {
      assert ChildrenLinked(kind, parent, children, q);
    }
    forall x | x in pa
      ensures x in kind && pa[x] in kind
    {
      assert ParentLinked(kind, parent, children, x);
    }
    forall q, x | q in ch
      ensures x in ch[q] <==> x in pa && pa[x] == q
    {
      DetachMember(kind, parent, children, c, q, x);
      assert ChildrenLinked(kind, parent, children, q);
      assert ParentLinked(kind, parent, children, x);
    }
    forall q | q in ch
      ensures Distinct(ch[q])
    {
      DetachDistinct(kind, parent, children, c, q);
      DetachMember(kind, parent, children, c, q, c);
      if q == p {
        DistinctAppend(d[p], c);
      }
    }
    ConsistentByMembership(kind, pa, ch);
  }

  /** Reordering the children of one control keeps the tree consistent. */
  lemma ReorderKeepsConsistent(kind: map<Handle, Kind>, parent: map<Handle, Handle>, children: map<Handle, seq<Handle>>,
                               p: Handle, s: seq<Handle>)
    requires Consistent(kind, parent, children) && p in children
    requires Distinct(s) && forall x :: x in s <==> x in children[p]
    ensures Consistent(kind, parent, children[p := s])
  {
    var ch := children[p := s];
    forall c
      ensures ParentLinked(kind, parent, ch, c)
    {
      assert ParentLinked(kind, parent, children, c);
    }
    forall q
      ensures ChildrenLinked(kind, parent, ch, q)
    {
      assert ChildrenLinked(kind, parent, children, q);
    }
  }

  /** Moving c to the end of its parent's children keeps the tree consistent. */
  lemma FrontKeepsConsistent(kind: map<Handle, Kind>, parent: map<Handle, Handle>, children: map<Handle, seq<Handle>>,
                             c: Handle)
    requires Consistent(kind, parent, children)
    ensures Consistent(kind, parent, Fronted(children, parent, c))
  {
    if c in parent && parent[c] in children {
      var p := parent[c];
      var rest := Remove(children[p], c);
      assert ParentLinked(kind, parent, children, c);
      assert ChildrenLinked(kind, parent, children, p);
      DistinctAppend(rest, c);
      forall x
        ensures x in rest + [c] <==> x in children[p]
      {
        assert x in rest + [c] <==> x in rest || x == c;
      }
      ReorderKeepsConsistent(kind, parent, children, p, rest + [c]);
    }
  }

  /** What every reachable arena satisfies: the canvas has no parent, handles
      are below the next one to be handed out, and parent links and child
      lists agree. It does not require every control to be reachable from the
      canvas, so it also admits detached groups whose parent links form a loop. */
  ghost predicate ValidState(canvas: Handle, next: Handle, kind: map<Handle, Kind>, parent: map<Handle, Handle>,
                             children: map<Handle, seq<Handle>>, hidden: set<Handle>) {
    && canvas in kind && canvas in children
    && canvas !in parent
    && hidden <= kind.Keys
    && (forall h :: Issued(kind, next, h))
    && Consistent(kind, parent, children)
  }

  /** Every known control has a handle below the next one to be handed out. */
  ghost predicate Issued(kind: map<Handle, Kind>, next: Handle, h: Handle) {
    h in kind ==> h < next
  }

  /** Adding the control `next` under p keeps an arena valid. */
  lemma NewKeepsValid(canvas: Handle, next: Handle, kind: map<Handle, Kind>, parent: map<Handle, Handle>,
                      children: map<Handle, seq<Handle>>, hidden: set<Handle>, p: Handle, k: Kind)
    requires ValidState(canvas, next, kind, parent, children, hidden) && p in kind && p in children
    ensures next !in kind && next !in children && next != canvas && next !in children[p]
    ensures ValidState(canvas, next + 1, kind[next := k], parent[next := p],
                       children[p := children[p] + [next]][next := []], hidden)
  {
    assert Issued(kind, next, next) && Issued(kind, next, canvas);
    assert ChildrenLinked(kind, parent, children, next);
    assert ChildrenLinked(kind, parent, children, p) && ParentLinked(kind, parent, children, next);
    NewKeepsConsistent(kind, parent, children, next, k, p);
    var kind', next' := kind[next := k], next + 1;
    forall h
      ensures Issued(kind', next', h)
    {
      assert Issued(kind, next, h);
    }
  }

  /** SetParent keeps an arena valid. */
  lemma MoveKeepsValid(canvas: Handle, next: Handle, kind: map<Handle, Kind>, parent: map<Handle, Handle>,
                       children: map<Handle, seq<Handle>>, hidden: set<Handle>, c: Handle, p: Handle)
    requires ValidState(canvas, next, kind, parent, children, hidden)
    requires c in kind && c != canvas && p in kind && p in children
    ensures ValidState(canvas, next, kind, parent[c := p], Moved(children, parent, c, p), hidden)
  {
    MoveKeepsConsistent(kind, parent, children, c, p);
  }

  class Arena {
    const canvas: Handle
    /** The handle the next control gets. */
    var next: Handle
    var kind: map<Handle, Kind>
    var parent: map<Handle, Handle>
    var children: map<Handle, seq<Handle>>
    var hidden: set<Handle>
    /** Modal overlays that dim what lies beneath them. */
    var drawsBackground: set<Handle>
    /** The canvas's deferred-deletion queue, oldest first. */
    var deleteQueue: seq<Handle>
    var log: seq<Call>

    ghost predicate Valid()
      reads this
    {
      ValidState(canvas, next, kind, parent, children, hidden)
    }

    /** An arena holding only the canvas. */
    constructor ()
      ensures Valid()
      ensures kind == map[canvas := Plain] && children == map[canvas := []] && parent == map[]
      ensures hidden == {} && deleteQueue == [] && log == []
    {
      canvas := 0;
      next := 1;
      kind := map[0 := Plain];
      parent := map[];
      children := map[0 := []];
      hidden := {};
      drawsBackground := {};
      deleteQueue := [];
      log := [];
    }

    /** A new control of kind k, added on top of p's children. */
    method NewControl(p: Handle, k: Kind) returns (h: Handle)
      requires Valid() && p in kind && p in children
      modifies this
      ensures Valid()
      ensures h !in old(kind) && h !in old(children) && h != canvas && h !in old(children)[p]
      ensures kind == old(kind)[h := k]
      ensures parent == old(parent)[h := p]
      ensures children == old(children)[p := old(children)[p] + [h]][h := []]
      ensures hidden == old(hidden) && drawsBackground == old(drawsBackground)
      ensures deleteQueue == old(deleteQueue) && log == old(log)
    {
      h := next;
      NewKeepsValid(canvas, next, kind, parent, children, hidden, p, k);
      next, kind, parent, children := next + 1, kind[h := k], parent[h := p], children[p := children[p] + [h]][h := []];
    }

    /** Moves c under p, on top of p's children; nothing happens when p already is c's parent. */
    method SetParent(c: Handle, p: Handle)
      requires Valid() && c in kind && c != canvas && p in kind && p in children
      modifies this
      ensures Valid()
      ensures parent == old(parent)[c := p]
      ensures children == Moved(old(children), old(parent), c, p)
      ensures kind == old(kind) && next == old(next) && hidden == old(hidden)
      ensures drawsBackground == old(drawsBackground) && deleteQueue == old(deleteQueue)
      ensures log == old(log) + [SetParentCall(c, p)]
    {
      MoveKeepsValid(canvas, next, kind, parent, children, hidden, c, p);
      // Moved leaves the children alone when p already is c's parent.
      children, parent, log := Moved(children, parent, c, p), parent[c := p], log + [SetParentCall(c, p)];
    }

    /** Moves c to the end of its parent's children, the top of the z-order. */
    method BringToFront(c: Handle)
      requires Valid() && c in kind
      modifies this
      ensures Valid()
      ensures children == Fronted(old(children), old(parent), c)
      ensures kind == old(kind) && next == old(next) && parent == old(parent) && hidden == old(hidden)
      ensures drawsBackground == old(drawsBackground) && deleteQueue == old(deleteQueue)
      ensures log == old(log) + [BringToFrontCall(c)]
    {
      log := log + [BringToFrontCall(c)];
      FrontKeepsConsistent(kind, parent, children, c);
      children := Fronted(children, parent, c);
    }

    method SetHidden(c: Handle, h: bool)
      requires Valid() && c in kind
      modifies this
      ensures Valid()
      ensures hidden == if h then old(hidden) + {c} else old(hidden) - {c}
      ensures kind == old(kind) && next == old(next) && parent == old(parent) && children == old(children)
      ensures drawsBackground == old(drawsBackground) && deleteQueue == old(deleteQueue)
      ensures log == old(log) + [SetHiddenCall(c, h)]
    {
      log := log + [SetHiddenCall(c, h)];
      hidden := if h then hidden + {c} else hidden - {c};
    }

    /** Queues c for deletion at the canvas's next sweep. */
    method DelayedDelete(c: Handle)
      requires Valid()
      modifies this
      ensures Valid()
      ensures deleteQueue == old(deleteQueue) + [c]
      ensures kind == old(kind) && next == old(next) && parent == old(parent) && children == old(children)
      ensures hidden == old(hidden) && drawsBackground == old(drawsBackground)
      ensures log == old(log) + [DelayedDeleteCall(c)]
    {
      log := log + [DelayedDeleteCall(c)];
      deleteQueue := deleteQueue + [c];
    }

    method SetShouldDrawBackground(m: Handle, b: bool)
      requires Valid()
      modifies this
      ensures Valid()
      ensures drawsBackground == if b then old(drawsBackground) + {m} else old(drawsBackground) - {m}
      ensures kind == old(kind) && next == old(next) && parent == old(parent) && children == old(children)
      ensures hidden == old(hidden) && deleteQueue == old(deleteQueue) && log == old(log)
    {
      drawsBackground := if b then drawsBackground + {m} else drawsBackground - {m};
    }

    /** Calls the listeners of a window's closed event. */
    method FireWindowClosed(w: Handle)
      requires Valid()
      modifies this
      ensures Valid()
      ensures log == old(log) + [WindowClosedCall(w)]
      ensures kind == old(kind) && next == old(next) && parent == old(parent) && children == old(children)
      ensures hidden == old(hidden) && drawsBackground == old(drawsBackground) && deleteQueue == old(deleteQueue)
    {
      log := log + [WindowClosedCall(w)];
    }
  }
}
