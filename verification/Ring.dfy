/** The hot potato game: threads in a doubly linked ring pass one baton and unlink themselves. */
module HotPotato {
  import opened Sequences

  /** The remainder of C, which has the sign of the dividend. */
  function Remainder(a: int, b: int): int
    requires 0 < b
  {
    if 0 <= a then a % b else -((-a) % b)
  }

  /** The new value of the potato; it explodes at 1. */
  function CambiarPapa(value: int): int {
    if value % 2 == 1 then 3 * value + 1 else value / 2
  }

  /** Three times and one more for an odd value, half of an even one; it comes to 1 from 2 alone. */
  lemma CambiarPapaIs(value: int)
    ensures value % 2 == 1 ==> CambiarPapa(value) == value + value + value + 1
    ensures value % 2 == 0 ==> CambiarPapa(value) + CambiarPapa(value) == value
    ensures CambiarPapa(value) == 1 <==> value == 2
  {
  }

  function Next(ring: seq<nat>, k: int): nat
    requires 0 <= k < |ring|
  {
    if k + 1 < |ring| then ring[k + 1] else ring[0]
  }

  /** The pointers lead from member k of the ring to the next one and back. */
  ghost predicate Linked(siguiente: seq<nat>, anterior: seq<nat>, ring: seq<nat>, k: int)
    requires 0 <= k < |ring|
  {
    && ring[k] < |siguiente| && siguiente[ring[k]] == Next(ring, k)
    && Next(ring, k) < |anterior| && anterior[Next(ring, k)] == ring[k]
  }

  /** One cycle under siguiente, with anterior as its inverse. */
  ghost predicate Cycle(siguiente: seq<nat>, anterior: seq<nat>, ring: seq<nat>) {
    |siguiente| == |anterior| && Distinct(ring) && forall k | 0 <= k < |ring| :: Linked(siguiente, anterior, ring, k)
  }

  lemma RotateCycle(siguiente: seq<nat>, anterior: seq<nat>, ring: seq<nat>)
    requires Cycle(siguiente, anterior, ring) && ring != []
    ensures Cycle(siguiente, anterior, ring[1..] + [ring[0]])
    ensures forall i :: i in ring[1..] + [ring[0]] <==> i in ring
  {
    var turned := ring[1..] + [ring[0]];
    assert ring == [ring[0]] + ring[1..];
    forall k | 0 <= k < |turned|
      ensures Linked(siguiente, anterior, turned, k)
    {
      assert Linked(siguiente, anterior, ring, if k + 1 < |ring| then k + 1 else 0);
    }
  }

  lemma {:induction false} RotateTo(siguiente: seq<nat>, anterior: seq<nat>, ring: seq<nat>, j: nat)
      returns (turned: seq<nat>)
    requires Cycle(siguiente, anterior, ring) && j < |ring|
    ensures Cycle(siguiente, anterior, turned) && |turned| == |ring| && turned[0] == ring[j]
    ensures forall i :: i in turned <==> i in ring
    decreases j
  {
    hide Cycle;
    turned := ring;
    if j > 0 {
      RotateCycle(siguiente, anterior, ring);
      turned := RotateTo(siguiente, anterior, ring[1..] + [ring[0]], j - 1);
    }
  }

  /** Unlinking the first leaves the cycle of the others, when at least two remain. */
  lemma UnlinkCycle(siguiente: seq<nat>, anterior: seq<nat>, ring: seq<nat>)
    requires Cycle(siguiente, anterior, ring) && 3 <= |ring|
    ensures var i := ring[0];
      i < |siguiente| && siguiente[i] < |anterior| && anterior[i] < |siguiente|
      && Cycle(siguiente[anterior[i] := siguiente[i]], anterior[siguiente[i] := anterior[i]], ring[1..])
  {
    var i, last, rest := ring[0], |ring| - 1, ring[1..];
    assert Linked(siguiente, anterior, ring, 0) && Linked(siguiente, anterior, ring, last);
    var next, previous := siguiente[anterior[i] := siguiente[i]], anterior[siguiente[i] := anterior[i]];
    forall k | 0 <= k < |rest|
      ensures Linked(next, previous, rest, k)
    {
      assert Linked(siguiente, anterior, ring, k + 1);
      if k + 1 < |rest| {
        assert ring[k + 1] != ring[last] && ring[k + 2] != ring[1];
      }
    }
  }

  lemma DropFirst(ring: seq<nat>)
    requires Distinct(ring) && ring != []
    ensures Distinct(ring[1..]) && forall i :: i in ring[1..] <==> i in ring && i != ring[0]
  {
  }

  /** Where the baton is after k passes without an explosion. */
  function Follow(siguiente: seq<nat>, i: nat, k: nat): nat {
    if k == 0 then i
    else
      var before := Follow(siguiente, i, k - 1);
      if before < |siguiente| then siguiente[before] else before
  }

  /** One round of passes visits every member in the order of the ring and comes back. */
  lemma {:induction false} FollowVisits(siguiente: seq<nat>, anterior: seq<nat>, ring: seq<nat>, k: nat)
    requires Cycle(siguiente, anterior, ring) && ring != [] && k <= |ring|
    ensures Follow(siguiente, ring[0], k) == if k < |ring| then ring[k] else ring[0]
  {
    if k > 0 {
      FollowVisits(siguiente, anterior, ring, k - 1);
      assert Linked(siguiente, anterior, ring, k - 1);
    }
  }

  /** What main makes of a remainder. */
  function WrapAround(remainder: int, n: nat): int {
    if remainder == -1 then n - 1 else remainder
  }

  /** The player at place a of n in a circle, where a is at most one step outside. */
  function Around(a: int, n: nat): int {
    if a == -1 then n - 1 else if a == n then 0 else a
  }

  lemma SmallRemainder(a: int, n: nat)
    requires 0 < n && -1 <= a <= n
    ensures WrapAround(Remainder(a, n), n) == Around(a, n)
  {
    if a == n {
      DivisionIsUnique(n, n, 1, 0);
    } else if 0 <= a {
      DivisionIsUnique(a, n, 0, a);
    } else if n > 1 {
      DivisionIsUnique(1, n, 0, 1);
    } else {
      assert n == 1;
    }
  }

  lemma DivisionIsUnique(a: int, n: nat, q: int, r: int)
    requires 0 <= r < n && a == q * n + r
    ensures a % n == r
  {
    assert a == a / n * n + a % n;
    RemaindersAgree(n, a / n, a % n, q, r);
  }

  lemma RemaindersAgree(n: int, k: int, m: int, q: int, r: int)
    requires 0 <= m < n && 0 <= r < n && k * n + m == q * n + r
    ensures m == r
  {
    assert (k - q) * n == k * n - q * n;
    if k > q {
      AtLeastOnce(k - q, n);
    } else if q > k {
      assert (q - k) * n == -((k - q) * n);
      AtLeastOnce(q - k, n);
    }
  }

  lemma AtLeastOnce(x: int, n: int)
    requires x >= 1 && n > 0
    ensures x * n >= n
  {
    assert (x - 1) * n >= 0;
  }

  /** The order of the players from player k on, in the direction of rotacion. */
  ghost function InitialRing(n: nat, rotacion: int): (ring: seq<nat>)
    ensures |ring| == n
  {
    seq(n, k requires 0 <= k < n => if rotacion == 1 then k else if k == 0 then 0 else n - k)
  }

  lemma InitialCycle(siguiente: seq<nat>, anterior: seq<nat>, rotacion: int)
    requires var n := |siguiente|;
      0 < n == |anterior| && (rotacion == 1 || rotacion == -1)
      && (forall i | 0 <= i < n :: siguiente[i] == Around(i + rotacion, n))
      && (forall i | 0 <= i < n :: anterior[i] == Around(i - rotacion, n))
    ensures Cycle(siguiente, anterior, InitialRing(|siguiente|, rotacion))
  {
    var n := |siguiente|;
    var ring := InitialRing(n, rotacion);
    forall k | 0 <= k < n
      ensures Linked(siguiente, anterior, ring, k)
    {
      assert siguiente[ring[k]] == Around(ring[k] + rotacion, n);
      assert anterior[Next(ring, k)] == Around(Next(ring, k) - rotacion, n);
    }
    assert Distinct(ring);
  }

  ghost function Players(n: nat): (players: set<nat>)
    ensures forall i: nat :: i in players <==> i < n
  {
    if n == 0 then {} else Players(n - 1) + {n - 1}
  }

  lemma InitialMembers(n: nat, rotacion: int)
    ensures forall i :: i in InitialRing(n, rotacion) <==> i in Players(n)
  {
    var ring := InitialRing(n, rotacion);
    assert forall k | 0 <= k < n :: ring[k] < n;
    forall i: nat | i < n
      ensures i in ring
    {
      assert ring[if rotacion == 1 || i == 0 then i else n - i] == i;
    }
  }

  /** The only baton holder leaves the game and lets the next player in. */
  lemma BatonMoves(unlocked: set<nat>, live: set<nat>, inBody: set<nat>, i: nat, next: nat)
    requires inBody <= live && unlocked !! inBody && unlocked * live + inBody == {i}
    requires i in inBody && next in live && next != i
    ensures inBody - {i} <= live - {i} && unlocked + {next} !! inBody - {i}
    ensures (unlocked + {next}) * (live - {i}) + (inBody - {i}) == {next}
  {
    assert inBody - {i} == {};
    assert unlocked * live == {};
  }

  /** The shared potato, the players' pointers and mutexes, and who has left the game. */
  class Game {
    var miembros: nat
    var value: int
    const siguiente: array<nat>
    const anterior: array<nat>
    ghost var live: set<nat>
    var unlocked: set<nat>
    ghost var inBody: set<nat>
    ghost var winners: seq<nat>
    ghost var losers: seq<nat>
    ghost var ring: seq<nat>

    /** The live players whose turn it is: let in by their mutex, or past it. */
    ghost function Batons(): set<nat>
      reads this
    {
      unlocked * live + inBody
    }

    /** The members are the live players, and while two remain they form one cycle. */
    ghost predicate RingRight()
      reads this, siguiente, anterior
    {
      && siguiente != anterior && siguiente.Length == anterior.Length
      && (forall i :: i in ring <==> i in live) && |ring| == miembros && Distinct(ring)
      && (2 <= miembros ==> Cycle(siguiente[..], anterior[..], ring))
      && (forall i <- live :: i < siguiente.Length)
    }

    /** Everybody is live, a loser or the winner, and there is a winner just when nobody is live. */
    ghost predicate ScoreRight()
      reads this
    {
      && |losers| + |winners| + miembros == siguiente.Length
      && (forall i <- losers :: i !in live && i < siguiente.Length)
      && (forall i <- winners :: i !in live && i < siguiente.Length)
      && |winners| == (if miembros == 0 then 1 else 0)
    }

    ghost predicate Valid()
      reads this, siguiente, anterior
    {
      RingRight() && ScoreRight() && inBody <= live && unlocked !! inBody
    }

    /** Exactly one baton exists, and the ring is written down from its holder on. */
    ghost predicate Playing()
      reads this
    {
      ring != [] && Batons() == {ring[0]}
    }

    constructor (n: nat, potato: int, rotacion: int)
      requires 0 < n && (rotacion == 1 || rotacion == -1)
      ensures Valid() && Batons() == {} && miembros == n && live == Players(n)
      ensures siguiente.Length == n && ring == InitialRing(n, rotacion) && Cycle(siguiente[..], anterior[..], ring)
      ensures forall i | 0 <= i < n ::
        siguiente[i] == (if i + rotacion == -1 then n - 1 else if i + rotacion == n then 0 else i + rotacion)
      ensures forall i | 0 <= i < n ::
        anterior[i] == (if i - rotacion == -1 then n - 1 else if i - rotacion == n then 0 else i - rotacion)
      ensures value == potato
      ensures fresh(siguiente) && fresh(anterior)
    {
      miembros, value := n, potato;
      siguiente, anterior := new nat[n], new nat[n];
      live, unlocked, inBody, winners, losers := Players(n), {}, {}, [], [];
      ring := InitialRing(n, rotacion);
      new;
      for i := 0 to n
        modifies siguiente, anterior
        invariant forall j | 0 <= j < i :: siguiente[j] == Around(j + rotacion, n)
        invariant forall j | 0 <= j < i :: anterior[j] == Around(j - rotacion, n)
      {
        SmallRemainder(i + rotacion, n);
        SmallRemainder(i - rotacion, n);
        hide Remainder;
        var next, previous := Remainder(i + rotacion, n), Remainder(i - rotacion, n);
        if next == -1 {
          next := n - 1;
        }
        if previous == -1 {
          previous := n - 1;
        }
        siguiente[i], anterior[i] := next, previous;
      }
      InitialCycle(siguiente[..], anterior[..], rotacion);
      InitialMembers(n, rotacion);
    }

    /** Main lets the first player in. */
    method Start(first: nat)
      requires Valid() && Batons() == {} && first in live && Cycle(siguiente[..], anterior[..], ring)
      modifies this`unlocked, this`ring
      ensures unlocked == old(unlocked) + {first}
      ensures Valid() && Playing() && ring[0] == first && Cycle(siguiente[..], anterior[..], ring)
    {
      ghost var j: nat :| j < |ring| && ring[j] == first;
      ghost var turned := RotateTo(siguiente[..], anterior[..], ring, j);
      hide Cycle;
      unlocked := unlocked + {first};
      ring := turned;
    }

    /** A player gets past its mutex, which locks behind it. */
    method Wait(i: nat)
      requires Valid() && Playing() && i in unlocked && i in live
      modifies this`unlocked, this`inBody
      ensures Valid() && Playing() && Batons() == old(Batons())
      ensures inBody == old(inBody) + {i} && unlocked == old(unlocked) - {i}
    {
      unlocked := unlocked - {i};
      inBody := inBody + {i};
    }

    /** Main unlocks the mutex of a player that has finished. */
    method Join(i: nat)
      requires Valid() && i !in live
      modifies this`unlocked
      ensures Valid() && Batons() == old(Batons())
    {
      unlocked := unlocked + {i};
    }

    /** Unlocks the mutex of another player and waits for its own. */
    method Pass(i: nat)
      requires Valid() && Playing() && i in inBody && 2 <= miembros
      modifies this`unlocked, this`inBody, this`ring
      ensures Valid() && Playing() && ring == old(ring[1..]) + [i]
      ensures inBody == old(inBody) - {i} && unlocked == old(unlocked) + {ring[0]}
    {
      RotateCycle(siguiente[..], anterior[..], ring);
      assert Linked(siguiente[..], anterior[..], ring, 0);
      assert ring[1] != i && ring[1] in ring;
      hide Cycle, Linked;
      unlocked := unlocked + {siguiente[i]};
      inBody := inBody - {i};
      ring := ring[1..] + [ring[0]];
    }

    /** The loser's part: out of the ring if others go on without it, then the baton to the next. */
    method Lose(i: nat, random: int)
      requires Valid() && Playing() && i in inBody && 2 <= miembros
      modifies this, siguiente, anterior
      ensures Valid() && Playing() && ring == old(ring[1..])
      ensures inBody == old(inBody) - {i} && unlocked == old(unlocked) + {ring[0]}
      ensures value == if miembros > 1 then random else old(value)
      ensures live == old(live) - {i} && miembros == old(miembros) - 1 && losers == old(losers) + [i]
      ensures winners == old(winners)
    {
      assert Linked(siguiente[..], anterior[..], ring, 0);
      assert ring[1] != i && ring[1] in ring;
      var next := siguiente[i];
      DropFirst(ring);
      BatonMoves(unlocked, live, inBody, i, next);
      hide Linked, Distinct;
      miembros := miembros - 1;
      if miembros > 1 {
        value := random;
        Unlink(i);
      }
      hide Cycle;
      unlocked := unlocked + {next};
      inBody, live, losers := inBody - {i}, live - {i}, losers + [i];
      ring := ring[1..];
    }

    /** The neighbours of the first of the ring are linked to each other. */
    method Unlink(i: nat)
      requires siguiente != anterior && 3 <= |ring| && ring[0] == i && Cycle(siguiente[..], anterior[..], ring)
      modifies siguiente, anterior
      ensures Cycle(siguiente[..], anterior[..], ring[1..])
    {
      ghost var forth, back := siguiente[..], anterior[..];
      UnlinkCycle(forth, back, ring);
      assert Linked(forth, back, ring, 0) && Linked(forth, back, ring, |ring| - 1);
      assert back[i] != i by {
        assert ring[0] != ring[|ring| - 1];
      }
      hide Cycle;
      siguiente[anterior[i]] := siguiente[i];
      assert siguiente[..] == forth[back[i] := forth[i]];
      anterior[siguiente[i]] := anterior[i];
      assert anterior[..] == back[forth[i] := back[i]];
    }

    /** One round of a player's loop; random is what rand_r would give. */
    method Play(i: nat, random: int) returns (finished: bool)
      requires Valid() && Playing() && i in inBody
      modifies this, siguiente, anterior
      ensures Valid() && i == old(ring[0])
      ensures finished <==> old(miembros) == 1 || old(value) == 2
      ensures !finished ==> Playing() && live == old(live) && ring == old(ring[1..]) + [i] && winners == old(winners)
      ensures !finished ==> if old(value) % 2 == 1 then value == 3 * old(value) + 1 else 2 * value == old(value)
      ensures finished ==> live == old(live) - {i} && ring == old(ring[1..])
      ensures old(miembros) > 1 ==> inBody == old(inBody) - {i} && unlocked == old(unlocked) + {ring[0]}
      ensures finished && miembros > 1 ==> value == random
      ensures finished && old(miembros) > 1 ==> Playing() && losers == old(losers) + [i] && winners == old(winners)
      ensures finished && old(miembros) == 1 ==>
        Batons() == {} && winners == old(winners) + [i] && losers == old(losers)
    {
      if miembros == 1 {
        miembros := 0;
        inBody, live, winners := inBody - {i}, live - {i}, winners + [i];
        ring := ring[1..];
        return true;
      }
      assert 2 <= miembros;
      CambiarPapaIs(value);
      hide CambiarPapa;
      value := CambiarPapa(value);
      if value == 1 {
        Lose(i, random);
        return true;
      }
      Pass(i);
      return false;
    }
  }
}
