/**
 Finding a free synchronous connection: the calling thread tries one connection after the other with an 8-bit
 counter. What the other threads hold at each attempt is arbitrary.
 */
module ConnectionPool {
  import opened Arithmetic

  /** The connection a counter value selects. */
  function Selected(i: nat, n: nat): (index: nat)
    requires n > 0
    ensures index < n
  {
    i % n
  }

  /** The connection of attempt number k: the counter is incremented first and wraps at 256. */
  function Tried(k: nat, n: nat): (index: nat)
    requires n > 0
    ensures index < n
  {
    Selected((k + 1) % 256, n)
  }

  lemma SelectedBelow(c: nat, n: nat)
    requires c < n
    ensures Selected(c, n) == c
  {
  }

  /** Among any 256 attempts in a row every connection of a pool of at most 255 is tried, though not equally often. */
  lemma AllTried(n: nat, c: nat, from: nat) returns (k: nat)
    requires c < n <= 255
    ensures from <= k < from + 256 && Tried(k, n) == c
  {
    SelectedBelow(c, n);
    hide Selected;
    var d := c - (from + 1) % 256;
    k := from + if d >= 0 then d else d + 256;
    CounterAt(from, d, k, c);
  }

  lemma CounterAt(from: nat, d: int, k: nat, c: nat)
    requires c < 255 && d == c - (from + 1) % 256 && k == from + if d >= 0 then d else d + 256
    ensures (k + 1) % 256 == c
  {
  }

  lemma SelectedNext(c: nat, n: nat)
    requires n > 0
    ensures Selected(c + 1, n) == (Selected(c, n) + 1) % n && Selected(0, n) == 0
  {
    ModAdd(c, 1, n);
    DivModUnique(0, n, 0, 0);
  }

  lemma CounterNext(k: nat)
    ensures (k + 1) % 256 != 255 ==> (k + 2) % 256 == (k + 1) % 256 + 1
    ensures (k + 1) % 256 == 255 ==> (k + 2) % 256 == 0
  {
  }

  /** Unless the counter wraps, the next attempt tries the next connection, the first one after the last. */
  lemma NextTried(k: nat, n: nat)
    requires n > 0
    ensures Tried(0, n) == 1 % n
    ensures (k + 1) % 256 != 255 ==> Tried(k + 1, n) == (Tried(k, n) + 1) % n
    ensures (k + 1) % 256 == 255 ==> Tried(k + 1, n) == 0
  {
    SelectedNext((k + 1) % 256, n);
    SelectedNext(0, n);
    hide Selected;
    CounterNext(k);
  }

  lemma NextCounter(k: nat)
    ensures (k % 256 + 1) % 256 == (k + 1) % 256
  {
  }

  /**
   Returns the first tried connection that no other thread holds at that attempt. The search ends exactly when
   there is such an attempt, as number success is; otherwise it goes on forever.
   */
  method GetFreeConnection(n: nat, held: (nat, nat) -> bool, ghost success: nat) returns (index: nat, attempts: nat)
    requires n > 0 && !held(success, Tried(success, n))
    ensures index == Tried(attempts, n) && !held(attempts, index)
    ensures forall k: nat :: k < attempts ==> held(k, Tried(k, n))
    ensures attempts <= success
  {
    hide Selected;
    var i := 0;
    attempts := 0;
    while true
      invariant i == attempts % 256 && attempts <= success
      invariant forall k: nat :: k < attempts ==> held(k, Tried(k, n))
      decreases success - attempts
    {
      NextCounter(attempts);
      i := (i + 1) % 256;
      index := Selected(i, n);
      if !held(attempts, index) {
        return;
      }
      attempts := attempts + 1;
    }
  }

  /** If some connection stays free from attempt number from on, one of the next 256 attempts succeeds. */
  lemma FreeConnectionFound(n: nat, held: (nat, nat) -> bool, c: nat, from: nat) returns (success: nat)
    requires c < n <= 255 && forall k: nat :: k >= from ==> !held(k, c)
    ensures success < from + 256 && !held(success, Tried(success, n))
  {
    success := AllTried(n, c, from);
  }
}
