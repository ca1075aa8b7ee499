/** The erase loop of the filename packet: which pages it clears, and when. */
module Erasing {
  import opened Machine
  import opened Flash
  import opened Session

  /** Completed erases of pages `i` to `n - 1` counted from the page of `dest`. */
  function Erases(dest: nat, i: nat, n: nat): (ops: seq<FlashOp>)
    requires i <= n && dest + PAGE_SIZE * n <= 0x1_0000_0000
    ensures |ops| == n - i
  {
    seq(n - i, k requires 0 <= k < n - i => Erase(dest + PAGE_SIZE * (i + k), true))
  }

  predicate OnPages(a: nat, dest: nat, i: nat, n: nat) {
    PageOf(dest) + i <= PageOf(a) < PageOf(dest) + n
  }

  lemma PageAhead(dest: nat, i: nat)
    ensures PageOf(dest + PAGE_SIZE * i) == PageOf(dest) + i
  {
  }

  /** Words off the pages keep their value. When FLASHStatus is still COMPLETE afterwards, every page
      was erased in turn and reads as erased. */
  ghost predicate Cleared(s: State, r: State, i: nat, n: nat)
    requires i <= n && s.dest + PAGE_SIZE * n <= 0x1_0000_0000
  {
    && r.flash.Keys == s.flash.Keys
    && (forall a :: a in s.flash && !OnPages(a, s.dest, i, n) ==> r.flash[a] == s.flash[a])
    && (r.complete ==>
          && r.ops == s.ops + Erases(s.dest, i, n)
          && forall a :: a in s.flash && OnPages(a, s.dest, i, n) ==> r.flash[a] == ERASED)
  }

  lemma ClearedMore(s: State, t: State, r: State, i: nat, n: nat, done: bool, hw: Hardware)
    requires i < n && s.dest + PAGE_SIZE * n <= 0x1_0000_0000 && t.dest == s.dest
    requires var page := s.dest + PAGE_SIZE * i;
             && done == hw.completes(|s.ops|, page) && t.complete == done
             && t.flash == AfterErase(hw, s.flash, |s.ops|, page)
             && t.ops == s.ops + [Erase(page, done)]
    requires r.complete ==> t.complete
    requires Cleared(t, r, i + 1, n)
    ensures Cleared(s, r, i, n)
  {
    PageAhead(s.dest, i);
    forall a | a in s.flash && !OnPages(a, s.dest, i, n)
      ensures r.flash[a] == s.flash[a]
    {
      assert !OnPages(a, s.dest, i + 1, n);
    }
    if r.complete {
      assert Erases(s.dest, i, n) == [Erase(s.dest + PAGE_SIZE * i, true)] + Erases(s.dest, i + 1, n);
      forall a | a in s.flash && OnPages(a, s.dest, i, n)
        ensures r.flash[a] == ERASED
      {
        if !OnPages(a, s.dest, i + 1, n) {
          assert PageOf(a) == PageOf(s.dest) + i;
        }
      }
    }
  }

  /** The erase loop looks at nothing but destination, status, flash and log. */
  lemma {:induction false} ErasedSame(hw: Hardware, s: State, t: State, i: nat, n: nat)
    requires s.dest == t.dest && s.complete == t.complete && s.flash == t.flash && s.ops == t.ops
    ensures var r, q := Erased(hw, s, i, n), Erased(hw, t, i, n);
            r.complete == q.complete && r.flash == q.flash && r.ops == q.ops
    decreases n - i
  {
    if i < n && s.complete {
      var page := ToU32(s.dest + PAGE_SIZE * i);
      var done := hw.completes(|s.ops|, page);
      ErasedSame(hw,
                 s.(complete := done, flash := AfterErase(hw, s.flash, |s.ops|, page), ops := s.ops + [Erase(page, done)]),
                 t.(complete := done, flash := AfterErase(hw, t.flash, |t.ops|, page), ops := t.ops + [Erase(page, done)]),
                 i + 1, n);
    }
  }

  lemma NothingCleared(s: State, i: nat, n: nat)
    requires i <= n && s.dest + PAGE_SIZE * n <= 0x1_0000_0000 && (i == n || !s.complete)
    ensures Cleared(s, s, i, n)
  {
  }

  lemma {:induction false} ErasedClears(hw: Hardware, s: State, i: nat, n: nat)
    requires i <= n && s.dest + PAGE_SIZE * n <= 0x1_0000_0000
    ensures Cleared(s, Erased(hw, s, i, n), i, n)
    ensures Erased(hw, s, i, n).complete ==> s.complete
    decreases n - i
  {
    hide AfterErase, OnPages, Erases, Cleared;
    if i < n && s.complete {
      var page := ToU32(s.dest + PAGE_SIZE * i);
      var done := hw.completes(|s.ops|, page);
      var t := s.(complete := done, flash := AfterErase(hw, s.flash, |s.ops|, page), ops := s.ops + [Erase(page, done)]);
      assert page == s.dest + PAGE_SIZE * i;
      ErasedClears(hw, t, i + 1, n);
      ClearedMore(s, t, Erased(hw, t, i + 1, n), i, n, done, hw);
    } else {
      NothingCleared(s, i, n);
    }
  }

  /** Whatever becomes of them, the operations that the erase loop adds are erases. */
  lemma {:induction false} ErasedOps(hw: Hardware, s: State, i: nat, n: nat) returns (more: seq<FlashOp>)
    ensures Erased(hw, s, i, n).ops == s.ops + more && forall j :: 0 <= j < |more| ==> more[j].Erase?
    decreases n - i
  {
    more := [];
    if i < n && s.complete {
      var page := ToU32(s.dest + PAGE_SIZE * i);
      var done := hw.completes(|s.ops|, page);
      var one := [FlashOp.Erase(page, done)];
      var rest := ErasedOps(hw, s.(complete := done, flash := AfterErase(hw, s.flash, |s.ops|, page), ops := s.ops + one),
                            i + 1, n);
      more := one + rest;
      assert s.ops + one + rest == s.ops + more;
    }
  }
}
