/**
 * Static hook installers (HookFunction.hpp / HookFunction.cpp): every
 * HookFunctionBase links itself at the head of a process-wide intrusive list
 * when it is constructed, and RunAll walks the list calling Run on each.
 *
 * The static head pointer becomes the field head of a Registry object. Run is a
 * virtual call into code the model cannot see; RunAll returns the objects it
 * calls Run on, in order, as a trace.
 */
module HookFunctions {

  /** s backwards. */
  function Reverse<T>(s: seq<T>): (r: seq<T>)
    ensures |r| == |s|
    ensures forall k :: 0 <= k < |s| ==> r[k] == s[|s| - 1 - k]
  {
    if s == [] then [] else [s[|s| - 1]] + Reverse(s[..|s| - 1])
  }

  /** No element occurs twice. */
  predicate Distinct<T(==)>(s: seq<T>)
  {
    forall k1, k2 :: 0 <= k1 < k2 < |s| ==> s[k1] != s[k2]
  }

  class HookFunctionBase {
    var next: HookFunctionBase?

    /** HookFunctionBase(): constructing an installer registers it. */
    constructor (registry: Registry)
      requires registry.Valid()
      modifies registry
      ensures registry.Valid()
      ensures registry.registered == old(registry.registered) + [this]
      ensures registry.list == [this] + old(registry.list)
    {
      new;
      registry.Register(this);
    }
  }

  class Registry {
    /** The static hookFunctions: the most recently registered installer, or null. */
    var head: HookFunctionBase?
    /** The installers reachable from head through next, in list order. */
    ghost var list: seq<HookFunctionBase>
    /** Every installer registered so far, in registration order. */
    ghost var registered: seq<HookFunctionBase>

    /** head starts a null-terminated chain through list, which is the registration order reversed. */
    ghost predicate Valid()
      reads this, list
    {
      (if list == [] then head == null else head == list[0]) &&
      (forall k :: 0 <= k < |list| - 1 ==> list[k].next == list[k + 1]) &&
      (list != [] ==> list[|list| - 1].next == null) &&
      Distinct(list) &&
      list == Reverse(registered)
    }

    /** The list starts empty. */
    constructor ()
      ensures Valid()
      ensures head == null && list == [] && registered == []
    {
      head := null;
      list := [];
      registered := [];
    }

    /**
     * Register(): f becomes the head and f.next the previous head; the rest of
     * the chain is unchanged. Registering an installer twice would close the
     * chain into a cycle, so f must not be in the list yet.
     */
    method Register(f: HookFunctionBase)
      requires Valid() && f !in list
      modifies this, f
      ensures Valid()
      ensures head == f && f.next == old(head)
      ensures list == [f] + old(list)
      ensures registered == old(registered) + [f]
    {
      f.next := head;
      head := f;
      list := [f] + list;
      registered := registered + [f];
      forall k | 0 < k < |list|
        ensures list[k] == old(list)[k - 1] && list[k] != f
      {
      }
      ReverseSnoc(old(registered), f);
    }

    /**
     * RunAll(): calls Run once on every registered installer, the most recent
     * first; with nothing registered it runs nothing.
     */
    method RunAll() returns (trace: seq<HookFunctionBase>)
      requires Valid()
      ensures trace == list
      ensures trace == Reverse(registered)
      ensures Distinct(trace)
      ensures forall f :: f in trace <==> f in registered
    {
      trace := [];
      var func := head;
      ghost var k := 0;
      while func != null
        invariant 0 <= k <= |list|
        invariant trace == list[..k]
        invariant func == if k < |list| then list[k] else null
        decreases |list| - k
      {
        assert func == list[k];
        trace := trace + [func];
        func := func.next;
        k := k + 1;
      }
      assert list[..k] == list;
      ReverseElements(registered);
    }
  }

  /** Reversing s + [x] puts x first. */
  lemma ReverseSnoc<T>(s: seq<T>, x: T)
    ensures Reverse(s + [x]) == [x] + Reverse(s)
  {
    assert (s + [x])[..|s|] == s;
  }

  /** Reversing keeps the elements. */
  lemma ReverseElements<T>(s: seq<T>)
    ensures forall x :: x in Reverse(s) <==> x in s
  {
    forall x | x in s
      ensures x in Reverse(s)
    {
      var k :| 0 <= k < |s| && s[k] == x;
      assert Reverse(s)[|s| - 1 - k] == x;
    }
  }
}
