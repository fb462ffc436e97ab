/**
 * The free function `FilterMessage` (WndLib.cpp), which a message loop calls
 * before translating and dispatching a message: the owner of the target
 * window, then the owners of its successive parents, are asked in turn
 * through their virtual `FilterMessage`; if none takes the message, the
 * target's owner gets `PreTranslateMessage`.
 *
 * What the virtual functions answer is given as the sets of objects that
 * answer true.  Owners are found with `Wnd::FindWnd`, so the registry may
 * gain NULL entries but no lookup changes.
 */
module Routing {
  import opened Wrappers
  import opened WindowTree
  import opened WndRegistry

  /** The window and its successive parents, up to the top-level window. */
  function Chain(parents: map<Handle, Handle>, rank: map<Handle, nat>, h: Handle): (c: seq<Handle>)
    requires Ranked(parents, rank)
    ensures |c| > 0 && c[0] == h
    decreases Height(parents, rank, h)
  {
    var p := GetParent(parents, h);
    if p == NULL then [h]
    else
      ParentLower(parents, rank, h);
      [h] + Chain(parents, rank, p)
  }

  /** The owners of the given windows, in order, skipping windows without one. */
  function Owners(w: World, hs: seq<Handle>): seq<ObjId>
  {
    if |hs| == 0 then []
    else (if Lookup(w, hs[0]).Some? then [Lookup(w, hs[0]).value] else []) + Owners(w, hs[1..])
  }

  /** The owners above `h`: those of its parent's chain, or none for a top-level window. */
  function OwnersAbove(w: World, parents: map<Handle, Handle>, rank: map<Handle, nat>, h: Handle): seq<ObjId>
    requires Ranked(parents, rank)
  {
    var p := GetParent(parents, h);
    if p == NULL then [] else Owners(w, Chain(parents, rank, p))
  }

  lemma ChainOwners(w: World, parents: map<Handle, Handle>, rank: map<Handle, nat>, h: Handle)
    requires Ranked(parents, rank)
    ensures Owners(w, Chain(parents, rank, h)) ==
      (if Lookup(w, h).Some? then [Lookup(w, h).value] else []) + OwnersAbove(w, parents, rank, h)
  {
    var c := Chain(parents, rank, h);
    if GetParent(parents, h) != NULL {
      assert c[1..] == Chain(parents, rank, GetParent(parents, h));
    } else {
      assert c[1..] == [];
    }
  }

  /** Moving up one window adds that window's owner, if any, to the owners seen so far. */
  lemma ConsultStep(w: World, parents: map<Handle, Handle>, rank: map<Handle, nat>, consulted: seq<ObjId>, h: Handle, all: seq<ObjId>)
    requires Ranked(parents, rank) && GetParent(parents, h) != NULL
    requires consulted + OwnersAbove(w, parents, rank, h) == all
    ensures var p := GetParent(parents, h);
      (consulted + if Lookup(w, p).Some? then [Lookup(w, p).value] else []) + OwnersAbove(w, parents, rank, p) == all
  {
    ChainOwners(w, parents, rank, GetParent(parents, h));
  }

  lemma PrefixMember(front: seq<ObjId>, back: seq<ObjId>, all: seq<ObjId>, i: nat)
    requires front + back == all && i < |front|
    ensures front <= all && front[i] in all
  {
    assert all[i] == front[i];
  }

  /**
   * `FilterMessage(msg)` for a message to `hwnd`.  `consulted` lists the
   * objects whose `FilterMessage` was called, in call order: the owners along
   * the chain from `hwnd` up, stopping at the first that takes the message.
   * The message is handled exactly when some owner on the chain takes it or,
   * failing that, the target's owner takes it in `PreTranslateMessage`.
   */
  method FilterMessage(w: World, parents: map<Handle, Handle>, rank: map<Handle, nat>, filters: set<ObjId>, preTranslates: set<ObjId>, hwnd: Handle)
    returns (handled: bool, consulted: seq<ObjId>, after: World)
    requires Ranked(parents, rank)
    ensures SameLookups(after, w)
    ensures consulted <= Owners(w, Chain(parents, rank, hwnd))
    ensures forall i :: 0 <= i < |consulted| - 1 ==> consulted[i] !in filters
    ensures consulted != Owners(w, Chain(parents, rank, hwnd)) ==> |consulted| > 0 && consulted[|consulted| - 1] in filters
    ensures handled <==>
      (exists o :: o in Owners(w, Chain(parents, rank, hwnd)) && o in filters) ||
      (Lookup(w, hwnd).Some? && Lookup(w, hwnd).value in preTranslates)
  {
    var all := Owners(w, Chain(parents, rank, hwnd));
    ChainOwners(w, parents, rank, hwnd);
    var target;
    after, target := FindWnd(w, hwnd).0, FindWnd(w, hwnd).1;
    consulted := [];
    if target.Some? {
      consulted := [target.value];
      if target.value in filters {
        PrefixMember(consulted, OwnersAbove(w, parents, rank, hwnd), all, 0);
        return true, consulted, after;
      }
    }
    var h := hwnd;
    while true
      invariant SameLookups(after, w)
      invariant consulted + OwnersAbove(w, parents, rank, h) == all
      invariant forall i :: 0 <= i < |consulted| ==> consulted[i] !in filters
      decreases Height(parents, rank, h)
    {
      var parent := GetParent(parents, h);
      if parent == NULL {
        break;
      }
      ParentLower(parents, rank, h);
      ConsultStep(w, parents, rank, consulted, h, all);
      h := parent;
      var found;
      after, found := FindWnd(after, h).0, FindWnd(after, h).1;
      assert found == Lookup(w, h);
      if found.Some? {
        consulted := consulted + [found.value];
        if found.value in filters {
          PrefixMember(consulted, OwnersAbove(w, parents, rank, h), all, |consulted| - 1);
          return true, consulted, after;
        }
      }
    }
    assert consulted == all;
    assert forall o :: o in all ==> o !in filters;
    handled := target.Some? && target.value in preTranslates;
  }
}
