/**
 * The handle ownership of the `ImageList` wrapper (WndLib.h): the object owns
 * at most one `HIMAGELIST` and destroys it when it takes another, when
 * `Destroy` is called and when it is destructed.
 *
 * The image lists that exist are the set `live`; every `ImageList_Destroy`
 * call is recorded in `destroyed`.  Destroying a handle that is not live is
 * a double free, reported as a failure.  The creating calls
 * (`ImageList_Create`, `_LoadImage`, `_Merge`, `_LoadBitmap`) are an oracle
 * that answers a new handle or NULL.
 */
module ImageList {
  import opened Wrappers
  import opened WindowTree

  /** The owning object's `_handle`, and the image lists of the system. */
  datatype ImageWorld = ImageWorld(handle: Handle, live: set<Handle>, destroyed: seq<Handle>)

  datatype Fault = DoubleFree(h: Handle)

  /** A handle the object can own: NULL or an existing image list. */
  predicate Owns(w: ImageWorld)
  {
    w.handle == NULL || w.handle in w.live
  }

  /** `ImageList()`: owns nothing. */
  function NewImageList(live: set<Handle>): (w: ImageWorld)
    ensures w.handle == NULL && Owns(w) && w.destroyed == []
  {
    ImageWorld(NULL, live, [])
  }

  /**
   * `Destroy()`: a non-NULL handle is passed to `ImageList_Destroy` and
   * forgotten; a NULL one is left alone.  Either way the object ends owning NULL.
   */
  function Destroy(w: ImageWorld): (r: Result<ImageWorld, Fault>)
    ensures w.handle == NULL ==> r == Success(w)
    ensures w.handle != NULL && w.handle !in w.live ==> r == Failure(DoubleFree(w.handle))
    ensures r.Success? ==> r.value.handle == NULL
    ensures r.Success? && w.handle != NULL ==>
      r.value.destroyed == w.destroyed + [w.handle] && r.value.live == w.live - {w.handle}
  {
    if w.handle == NULL then Success(w)
    else if w.handle !in w.live then Failure(DoubleFree(w.handle))
    else Success(ImageWorld(NULL, w.live - {w.handle}, w.destroyed + [w.handle]))
  }

  /** An object that owns what it may never faults in `Destroy`. */
  lemma DestroySafe(w: ImageWorld)
    requires Owns(w)
    ensures Destroy(w).Success? && Owns(Destroy(w).value)
  {
  }

  /** A second `Destroy` does nothing: the handle was released once only. */
  lemma DestroyIdempotent(w: ImageWorld)
    requires Destroy(w).Success?
    ensures Destroy(Destroy(w).value) == Destroy(w)
    ensures |Destroy(w).value.destroyed| <= |w.destroyed| + 1
  {
  }

  /** `Attach(list)`: destroys what was owned, then owns `list`. */
  function Attach(w: ImageWorld, list: Handle): (r: Result<ImageWorld, Fault>)
    ensures Destroy(w).Failure? ==> r.Failure?
    ensures Destroy(w).Success? ==> r == Success(Destroy(w).value.(handle := list))
  {
    var cleared :- Destroy(w);
    Success(cleared.(handle := list))
  }

  /** `Detach()`: hands back the handle and owns NULL, destroying nothing. */
  function Detach(w: ImageWorld): (r: (ImageWorld, Handle))
    ensures r.1 == w.handle && r.0.handle == NULL
    ensures r.0.live == w.live && r.0.destroyed == w.destroyed
  {
    (w.(handle := NULL), w.handle)
  }

  /**
   * `Create`, `LoadImage`, `Merge` and `LoadBitmap`: destroy what was owned,
   * then own what the creating call returned, `created`, a new list or NULL.
   * The result is whether a list was created.
   */
  function Acquire(w: ImageWorld, created: Handle): (r: Result<(ImageWorld, bool), Fault>)
    ensures Destroy(w).Failure? ==> r.Failure?
    ensures r.Success? ==> r.value.1 == (created != NULL) && r.value.0.handle == created
    ensures r.Success? ==> r.value.0.destroyed == Destroy(w).value.destroyed
    ensures r.Success? && created != NULL ==> r.value.0.live == Destroy(w).value.live + {created}
  {
    var cleared :- Destroy(w);
    var live := if created == NULL then cleared.live else cleared.live + {created};
    Success((ImageWorld(created, live, cleared.destroyed), created != NULL))
  }

  /** Taking a new list releases the old one first: `Acquire` destroys exactly the handle that was owned. */
  lemma AcquireReleasesOld(w: ImageWorld, created: Handle)
    requires Owns(w) && created !in w.live
    ensures Acquire(w, created).Success?
    ensures var r := Acquire(w, created).value.0;
      Owns(r) &&
      r.destroyed == (if w.handle == NULL then w.destroyed else w.destroyed + [w.handle]) &&
      (w.handle != NULL ==> w.handle !in r.live || w.handle == created)
  {
  }

  /** The calls a program makes on one `ImageList` object. */
  datatype Call =
    | CallAttach(list: Handle)
    | CallDetach
    | CallDestroy
    | CallAcquire(created: Handle)

  /** What the caller must guarantee: attach only a live list the object does not already own, and creation yields a new handle. */
  predicate Allowed(w: ImageWorld, c: Call)
  {
    match c
    case CallAttach(list) => list == NULL || (list in w.live && list != w.handle)
    case CallAcquire(created) => created == NULL || created !in w.live
    case _ => true
  }

  function Step(w: ImageWorld, c: Call): Result<ImageWorld, Fault>
  {
    match c
    case CallAttach(list) => Attach(w, list)
    case CallDetach => Success(Detach(w).0)
    case CallDestroy => Destroy(w)
    case CallAcquire(created) =>
      var r :- Acquire(w, created);
      Success(r.0)
  }

  /** Run the calls in order, and the destructor's `Destroy` at the end. */
  function Run(w: ImageWorld, calls: seq<Call>): Result<ImageWorld, Fault>
    decreases |calls|
  {
    if |calls| == 0 then Destroy(w)
    else
      var next :- Step(w, calls[0]);
      Run(next, calls[1..])
  }

  /** A call the caller is allowed to make keeps the object owning a live list or NULL. */
  lemma StepKeepsOwnership(w: ImageWorld, c: Call)
    requires Owns(w) && Allowed(w, c)
    ensures Step(w, c).Success? && Owns(Step(w, c).value)
  {
    DestroySafe(w);
    if c.CallAttach? && c.list != NULL {
      assert c.list in Destroy(w).value.live;
    }
  }

  /**
   * A sequence of calls the caller is allowed to make: each call is allowed
   * in the world the calls before it produced.  A call that faults ends the
   * run, so nothing is asked of the calls after it.
   */
  predicate AllowedRun(w: ImageWorld, calls: seq<Call>)
    decreases |calls|
  {
    |calls| == 0 ||
    (Allowed(w, calls[0]) &&
     match Step(w, calls[0])
     case Success(next) => AllowedRun(next, calls[1..])
     case Failure(_) => true)
  }

  /**
   * No double free: however an object is used within the rules, through its
   * destructor, no `ImageList_Destroy` is ever called on a list that no
   * longer exists, and the destructor leaves the object owning nothing.
   */
  lemma {:induction false} NoDoubleFree(w: ImageWorld, calls: seq<Call>)
    requires Owns(w) && AllowedRun(w, calls)
    ensures Run(w, calls).Success? && Run(w, calls).value.handle == NULL
    decreases |calls|
  {
    if |calls| == 0 {
      DestroySafe(w);
    } else {
      StepKeepsOwnership(w, calls[0]);
      NoDoubleFree(Step(w, calls[0]).value, calls[1..]);
    }
  }

  /** Attaching the list the object already owns destroys it and leaves the object holding it: its next `Destroy` is a double free. */
  lemma SelfAttachDangles(w: ImageWorld)
    requires w.handle != NULL && w.handle in w.live
    ensures Attach(w, w.handle).Success?
    ensures Destroy(Attach(w, w.handle).value) == Failure(DoubleFree(w.handle))
  {
  }
}
