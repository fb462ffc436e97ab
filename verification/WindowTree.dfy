/**
 * The window hierarchy as `::GetParent` reports it, and the two walks up it
 * the library makes: `IsAncestorOfWindow` (WndLib.cpp) and
 * `LogWnd::ShowFrame` (LogWnd.cpp), which looks for the top-level window.
 *
 * Handles are integers and `NULL` is 0.  The parent relation is a finite map;
 * a handle with no entry has no parent.  The hierarchy the window manager
 * keeps is acyclic, which the model states as a rank that strictly decreases
 * from a window to its parent.
 */
module WindowTree {

  type Handle = int

  const NULL: Handle := 0

  /** `::GetParent`: the parent window, or NULL for a top-level window or an unknown handle. */
  function GetParent(parents: map<Handle, Handle>, h: Handle): Handle
  {
    if h in parents then parents[h] else NULL
  }

  /** `rank` witnesses that following parents always terminates: a parent that has a parent ranks lower. */
  predicate Ranked(parents: map<Handle, Handle>, rank: map<Handle, nat>)
  {
    && NULL !in parents
    && parents.Keys <= rank.Keys
    && forall h :: h in parents && parents[h] in parents ==> rank[parents[h]] < rank[h]
  }

  function Height(parents: map<Handle, Handle>, rank: map<Handle, nat>, h: Handle): nat
    requires Ranked(parents, rank)
  {
    if h in parents then rank[h] + 1 else 0
  }

  lemma ParentLower(parents: map<Handle, Handle>, rank: map<Handle, nat>, h: Handle)
    requires Ranked(parents, rank) && GetParent(parents, h) != NULL
    ensures Height(parents, rank, GetParent(parents, h)) < Height(parents, rank, h)
  {
  }

  /** The successive parents of `h`, up to and including the NULL that ends the walk. */
  function Ancestors(parents: map<Handle, Handle>, rank: map<Handle, nat>, h: Handle): (r: seq<Handle>)
    requires Ranked(parents, rank)
    ensures |r| > 0 && r[|r| - 1] == NULL
    ensures forall k :: 0 <= k < |r| - 1 ==> r[k] != NULL
    ensures r[0] == GetParent(parents, h)
    decreases Height(parents, rank, h)
  {
    var p := GetParent(parents, h);
    if p == NULL then [NULL]
    else
      ParentLower(parents, rank, h);
      [p] + Ancestors(parents, rank, p)
  }

  /** The ancestors of `h` are its parent followed by its parent's ancestors. */
  lemma AncestorsStep(parents: map<Handle, Handle>, rank: map<Handle, nat>, h: Handle, a: Handle)
    requires Ranked(parents, rank)
    ensures a in Ancestors(parents, rank, h) <==>
      a == GetParent(parents, h) || (GetParent(parents, h) != NULL && a in Ancestors(parents, rank, GetParent(parents, h)))
  {
  }

  /** An ancestor of an ancestor is an ancestor. */
  lemma {:induction false} AncestorTransitive(parents: map<Handle, Handle>, rank: map<Handle, nat>, a: Handle, b: Handle, c: Handle)
    requires Ranked(parents, rank) && b != NULL
    requires a in Ancestors(parents, rank, b) && b in Ancestors(parents, rank, c)
    ensures a in Ancestors(parents, rank, c)
    decreases Height(parents, rank, c)
  {
    var p := GetParent(parents, c);
    AncestorsStep(parents, rank, c, b);
    AncestorsStep(parents, rank, c, a);
    if b != p {
      ParentLower(parents, rank, c);
      AncestorTransitive(parents, rank, a, b, p);
    }
  }

  /**
   * `IsAncestorOfWindow(parent, child)`: true when `parent` is `child` itself
   * or one of its successive parents.  The walk ends on the NULL after the
   * top-level window and compares it too, so a NULL `parent` is an ancestor
   * of every window.
   */
  method IsAncestorOfWindow(parents: map<Handle, Handle>, rank: map<Handle, nat>, parent: Handle, child: Handle) returns (r: bool)
    requires Ranked(parents, rank)
    ensures r <==> parent == child || parent in Ancestors(parents, rank, child)
    ensures parent == NULL ==> r
  {
    if child == parent {
      return true;
    }
    var c := child;
    while true
      invariant c != parent
      invariant parent in Ancestors(parents, rank, child) <==> parent in Ancestors(parents, rank, c)
      decreases Height(parents, rank, c)
    {
      AncestorsStep(parents, rank, c, parent);
      var next := GetParent(parents, c);
      if next == parent {
        return true;
      }
      if next == NULL {
        return false;
      }
      ParentLower(parents, rank, c);
      c := next;
    }
  }

  /** The top-level window above `h`: the last handle before the NULL that ends its ancestors, or `h` itself. */
  function TopLevel(parents: map<Handle, Handle>, rank: map<Handle, nat>, h: Handle): (top: Handle)
    requires Ranked(parents, rank)
    ensures GetParent(parents, top) == NULL
    ensures h != NULL ==> top != NULL
    ensures top == h || top in Ancestors(parents, rank, h)
    decreases Height(parents, rank, h)
  {
    var p := GetParent(parents, h);
    if p == NULL then h
    else
      ParentLower(parents, rank, h);
      TopLevel(parents, rank, p)
  }

  /**
   * `LogWnd::ShowFrame`'s walk: from the window upwards until a window with
   * no parent, which is the one shown or hidden.  No window is touched when
   * the log window has no handle.
   */
  method ShowFrameTarget(parents: map<Handle, Handle>, rank: map<Handle, nat>, self: Handle) returns (target: Handle)
    requires Ranked(parents, rank)
    ensures self == NULL ==> target == NULL
    ensures self != NULL ==> target != NULL && GetParent(parents, target) == NULL
    ensures self != NULL ==> target == TopLevel(parents, rank, self)
  {
    var hwnd := self;
    while hwnd != NULL
      invariant hwnd == NULL ==> self == NULL
      invariant hwnd != NULL ==> TopLevel(parents, rank, hwnd) == TopLevel(parents, rank, self)
      decreases Height(parents, rank, hwnd)
    {
      var hparent := GetParent(parents, hwnd);
      if hparent == NULL {
        return hwnd;
      }
      ParentLower(parents, rank, hwnd);
      hwnd := hparent;
    }
    return NULL;
  }
}
