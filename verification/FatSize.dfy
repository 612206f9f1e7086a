/** The size of a file allocation table in sectors (`_calculate_fat_size` in
    `formatter/nifat32formatter.c`): a table takes room away from the clusters that it describes,
    so the formatter iterates towards a fixed point. */
module FatSize {
  import opened Arith

  const RESERVED_SECTORS := 32
  const BYTES_PER_SECTOR := 512
  const ENTRY_BYTES := 4
  const U32 := 0x1_0000_0000

  /** The data sectors, the number of table copies and the sectors of a cluster. */
  datatype Geometry = Geometry(sectors: nat, fc: nat, spc: nat)

  /** Clusters left beside tables of `x` sectors, in 32-bit arithmetic. */
  function Clusters(g: Geometry, x: nat): nat
    requires g.spc > 0
  {
    (g.sectors - g.fc * x) % U32 / g.spc
  }

  /** Sectors for a table of so many clusters. */
  function Step(g: Geometry, x: nat): nat
    requires g.spc > 0
  {
    (Clusters(g, x) * ENTRY_BYTES + BYTES_PER_SECTOR - 1) / BYTES_PER_SECTOR
  }

  /** Even the largest tables that are tried fit on the disk. */
  ghost predicate Roomy(g: Geometry) {
    g.spc > 0 && g.sectors < U32 && g.fc * Step(g, 0) <= g.sectors
  }

  ghost predicate Fixed(g: Geometry, x: nat)
    requires g.spc > 0
  {
    Step(g, x) == x
  }

  ghost function Iterate(g: Geometry, k: nat): nat
    requires g.spc > 0
  {
    if k == 0 then 0 else Step(g, Iterate(g, k - 1))
  }

  // ----- the step

  lemma {:induction false} Unwrapped(g: Geometry, x: nat, product: nat)
    requires g.spc > 0 && g.sectors < U32 && product == g.fc * x <= g.sectors
    ensures Clusters(g, x) == (g.sectors - product) / g.spc
    ensures Step(g, x) == ((g.sectors - product) / g.spc * ENTRY_BYTES + BYTES_PER_SECTOR - 1) / BYTES_PER_SECTOR
  {
    assert (g.sectors - product) % U32 == g.sectors - product;
  }

  /** Within the bracket nothing wraps around. */
  lemma {:induction false} NoWrap(g: Geometry, x: nat)
    requires Roomy(g) && x <= Step(g, 0)
    ensures g.fc * x <= g.sectors && Clusters(g, x) == (g.sectors - g.fc * x) / g.spc
  {
    hide Step, Clusters;
    MulMonotone(g.fc, x, Step(g, 0));
    Unwrapped(g, x, g.fc * x);
  }

  /** Larger tables leave less to describe. */
  lemma {:induction false} StepAntitone(g: Geometry, x: nat, y: nat)
    requires Roomy(g) && x <= y <= Step(g, 0)
    ensures Step(g, y) <= Step(g, x)
  {
    hide Clusters;
    NoWrap(g, x);
    NoWrap(g, y);
    MulMonotone(g.fc, x, y);
    DivMonotone(g.sectors - g.fc * y, g.sectors - g.fc * x, g.spc);
  }

  lemma {:induction false} FixedIsUnique(g: Geometry, x: nat, y: nat)
    requires Roomy(g) && x <= Step(g, 0) && y <= Step(g, 0) && Fixed(g, x) && Fixed(g, y)
    ensures x == y
  {
    if x < y {
      StepAntitone(g, x, y);
    } else {
      StepAntitone(g, y, x);
    }
  }

  /** All iterates lie between the second and the first. */
  lemma {:induction false} Bracket(g: Geometry, k: nat)
    requires Roomy(g) && k > 0
    ensures Step(g, Step(g, 0)) <= Iterate(g, k) <= Step(g, 0)
  {
    StepAntitone(g, 0, Step(g, 0));
    if k > 1 {
      Bracket(g, k - 1);
      StepAntitone(g, Iterate(g, k - 1), Step(g, 0));
      StepAntitone(g, 0, Iterate(g, k - 1));
    }
  }

  /** A fixed point has room for four bytes a cluster, and not a whole sector too many. */
  lemma {:induction false} FixedHolds(g: Geometry, x: nat)
    requires g.spc > 0 && Fixed(g, x)
    ensures ENTRY_BYTES * Clusters(g, x) <= BYTES_PER_SECTOR * x < ENTRY_BYTES * Clusters(g, x) + BYTES_PER_SECTOR
  {
  }

  /** With no more copies than a cluster has sectors, as by default, every disk is roomy. */
  lemma {:induction false} FewCopiesAreRoomy(g: Geometry)
    requires 0 < g.spc && g.fc <= g.spc && g.sectors < U32
    ensures Roomy(g)
  {
    hide Step, Clusters;
    Unwrapped(g, 0, 0);
    var c, n := g.sectors / g.spc, Step(g, 0);
    assert n <= c;
    MulMonotone(g.fc, n, c);
    MulMonotone(c, g.fc, g.spc);
    assert g.sectors == g.spc * c + g.sectors % g.spc && c * g.spc == g.spc * c && c * g.fc == g.fc * c;
  }

  // ----- fixed points by arithmetic

  /** `data_sectors` and the sectors that the rounding up of the table may add. */
  function Dividend(g: Geometry): nat {
    g.sectors + 127 * g.spc
  }

  /** The sectors that one sector of every table copy stands for: the copies themselves, and the
      128 clusters that a sector describes. */
  function Divisor(g: Geometry): nat {
    g.fc + 128 * g.spc
  }

  /** What a caller can compute beforehand: whether there is a fixed point. */
  predicate Solvable(g: Geometry)
    requires g.spc > 0
  {
    Remainder(g) < 128 * g.spc
  }

  /** ... and which one. */
  function Solution(g: Geometry): nat
    requires g.spc > 0
  {
    Dividend(g) / Divisor(g)
  }

  function Remainder(g: Geometry): nat
    requires g.spc > 0
  {
    Dividend(g) % Divisor(g)
  }

  /** When a step reaches `y`. */
  lemma {:induction false} StepAtLeast(g: Geometry, x: nat, y: nat)
    requires g.spc > 0 && g.sectors < U32 && g.fc * x <= g.sectors
    ensures Step(g, x) >= y <==> y == 0 || Dividend(g) >= g.fc * x + 128 * (g.spc * y)
  {
    hide Step, Clusters;
    Unwrapped(g, x, g.fc * x);
    DivAtLeast(g.sectors - g.fc * x, 128 * y - 127, g.spc);
    Products(g.fc, g.spc, y);
  }

  lemma {:induction false} FixedIs(g: Geometry, x: nat)
    requires g.spc > 0 && g.sectors < U32 && g.fc * x <= g.sectors
    ensures Fixed(g, x) <==> Divisor(g) * x <= Dividend(g) < Divisor(g) * x + 128 * g.spc
  {
    hide Step;
    StepAtLeast(g, x, x);
    StepAtLeast(g, x, x + 1);
    Products(g.fc, g.spc, x);
    assert g.spc * (x + 1) == g.spc * x + g.spc;
    assert x == 0 ==> Divisor(g) * x == 0;
  }

  lemma Products(fc: nat, spc: nat, x: nat)
    ensures spc * (128 * x - 127) == 128 * (spc * x) - 127 * spc
    ensures (fc + 128 * spc) * x == fc * x + 128 * (spc * x)
  {
  }

  /** There is a fixed point exactly when a remainder is small, and then the quotient is it. */
  lemma {:induction false} FixedIff(g: Geometry)
    requires Roomy(g)
    ensures (exists p: nat :: p <= Step(g, 0) && Fixed(g, p)) <==> Solvable(g)
    ensures forall p: nat | p <= Step(g, 0) && Fixed(g, p) :: p == Solution(g)
    ensures Solvable(g) ==> Solution(g) <= Step(g, 0) && Fixed(g, Solution(g))
  {
    hide Step, Fixed;
    forall p: nat | p <= Step(g, 0) && Fixed(g, p) ensures p == Solution(g) && Solvable(g) {
      NoWrap(g, p);
      FixedIs(g, p);
      DivModUnique(Dividend(g), Divisor(g), p, Dividend(g) - Divisor(g) * p);
    }
    if Solvable(g) {
      var q := Solution(g);
      assert Dividend(g) == Divisor(g) * q + Remainder(g);
      SolutionFits(g, q);
      FixedIs(g, q);
      FixedInBracket(g, q);
    }
  }

  lemma {:induction false} SolutionFits(g: Geometry, q: nat)
    requires g.spc > 0 && Divisor(g) * q <= Dividend(g)
    ensures g.fc * q <= g.sectors
  {
    assert Divisor(g) * q == g.fc * q + 128 * g.spc * q;
    MulFar(128 * g.spc, q);
    assert q == 0 ==> g.fc * q == 0;
  }

  lemma {:induction false} FixedInBracket(g: Geometry, x: nat)
    requires g.spc > 0 && g.sectors < U32 && g.fc * x <= g.sectors && Fixed(g, x)
    ensures x <= Step(g, 0)
  {
    hide Step, Clusters;
    Unwrapped(g, x, g.fc * x);
    Unwrapped(g, 0, 0);
    DivMonotone(g.sectors - g.fc * x, g.sectors, g.spc);
  }

  // ----- termination

  /** What a caller can compute beforehand: whether the iteration gets to the fixed point. */
  predicate Settles(g: Geometry)
    requires g.spc > 0
  {
    var r := Remainder(g);
    Solvable(g) && (Solution(g) == 0 || r < 128 * g.spc - g.fc || g.fc <= r)
  }

  lemma Divided(g: Geometry)
    requires g.spc > 0
    ensures Dividend(g) == g.fc * Solution(g) + 128 * (g.spc * Solution(g)) + Remainder(g)
  {
    hide Dividend;
    Products(g.fc, g.spc, Solution(g));
  }

  lemma Times(a: int, x: int, y: int)
    ensures a * (x - y) == a * x - a * y
  {
  }

  /** What the step does around the solution `p`: when the image of `p + d` is at least `p + e`.
      The remainder decides. */
  lemma {:induction false} Around(g: Geometry, x: nat, y: nat, d: int, e: int)
    requires Roomy(g) && x <= Step(g, 0) && d == x - Solution(g) && e == y - Solution(g)
    ensures Step(g, x) >= y <==> y == 0 || Remainder(g) >= g.fc * d + 128 * (g.spc * e)
  {
    hide Step, Clusters, Dividend, Divisor, Solution, Remainder;
    NoWrap(g, x);
    StepAtLeast(g, x, y);
    Divided(g);
    Times(g.fc, x, Solution(g));
    Times(g.spc, y, Solution(g));
  }

  /** Where the iteration settles, a step is not steeper than one to one, or there is no cluster. */
  lemma {:induction false} LightOrEmpty(g: Geometry)
    requires Roomy(g) && Settles(g)
    ensures Step(g, 0) == 0 || g.fc < 128 * g.spc
  {
    hide Step, Clusters;
    if Solution(g) == 0 {
      assert Dividend(g) == Divisor(g) * 0 + Remainder(g);
      assert g.fc * 0 == 0 && g.spc * 1 == g.spc;
      StepAtLeast(g, 0, 1);
    }
  }

  /** How far `x` is from `p`; one more on the far side, from which the step may leap as far back. */
  ghost function Distance(p: nat, x: nat, above: bool): nat {
    if x == p then 0
    else 2 * (if x < p then p - x else x - p) + if (x > p) == above then 1 else 0
  }

  /** The side of the solution from which the step may leap as far to the other side. */
  ghost predicate FarAbove(g: Geometry)
    requires g.spc > 0
  {
    Remainder(g) < g.fc
  }

  lemma {:induction false} LeadsDown(g: Geometry, x: nat)
    requires Roomy(g) && Settles(g) && Solution(g) < x <= Step(g, 0) && g.fc <= 128 * g.spc
    ensures Step(g, x) <= Solution(g) && Solution(g) - Step(g, x) <= x - Solution(g) - if FarAbove(g) then 0 else 1
  {
    hide Step, Clusters, Dividend, Divisor, Solution, Remainder;
    var p, d := Solution(g), x - Solution(g);
    FixedIff(g);
    StepAntitone(g, p, x);
    Slopes(g.fc, g.spc, d);
    if FarAbove(g) {
      if p > d {
        Around(g, x, p - d, d, 0 - d);
      }
    } else if p > d - 1 {
      Around(g, x, p - (d - 1), d, 1 - d);
    }
  }

  lemma {:induction false} LeadsUp(g: Geometry, x: nat)
    requires Roomy(g) && Settles(g) && x < Solution(g) && g.fc <= 128 * g.spc
    ensures x <= Step(g, 0) && Step(g, x) >= Solution(g)
    ensures Step(g, x) - Solution(g) <= Solution(g) - x - if FarAbove(g) then 1 else 0
  {
    hide Step, Clusters, Dividend, Divisor, Solution, Remainder;
    var p, d := Solution(g), Solution(g) - x;
    FixedIff(g);
    StepAntitone(g, x, p);
    Slopes(g.fc, g.spc, d);
    if FarAbove(g) {
      Around(g, x, p + d, 0 - d, d);
    } else {
      Around(g, x, p + d + 1, 0 - d, d + 1);
    }
  }

  /** Each place further from the solution costs at most 128 clusters more than it frees. */
  lemma {:induction false} Slopes(fc: nat, spc: nat, d: nat)
    requires fc <= 128 * spc && 1 <= d
    ensures fc * d + 128 * (spc * (0 - d)) <= 0 && fc * d + 128 * (spc * (1 - d)) <= fc
    ensures fc * (0 - d) + 128 * (spc * d) >= 128 * spc - fc && fc * (0 - d) + 128 * (spc * (d + 1)) >= 128 * spc
  {
    MulMonotone(d - 1, fc, 128 * spc);
    assert (d - 1) * fc == fc * d - fc && (d - 1) * (128 * spc) == 128 * (spc * d) - 128 * spc;
  }

  /** Every step inside the bracket leads closer to the solution. */
  lemma {:induction false} Leads(g: Geometry, x: nat)
    requires Roomy(g) && Settles(g) && x <= Step(g, 0)
    ensures Step(g, x) <= Step(g, 0)
    ensures x != Solution(g) ==> Distance(Solution(g), Step(g, x), FarAbove(g)) < Distance(Solution(g), x, FarAbove(g))
    ensures x == Solution(g) ==> Step(g, x) == x
  {
    hide Step, Clusters, Settles;
    SettledIsSolvable(g);
    FixedIff(g);
    StepAntitone(g, 0, x);
    if x > Solution(g) {
      LightOrEmpty(g);
      LeadsDown(g, x);
    } else if x < Solution(g) {
      LightOrEmpty(g);
      LeadsUp(g, x);
    }
  }

  /** `_calculate_fat_size`: on a roomy disk that passes the arithmetic test, the loop ends with a
      quotient of the inputs. */
  method CalculateFatSize(totalSectors: nat, fc: nat, spc: nat) returns (fatSize: nat)
    requires RESERVED_SECTORS <= totalSectors < U32
    requires var g := Geometry(totalSectors - RESERVED_SECTORS, fc, spc); Roomy(g) && Settles(g)
    ensures fatSize == (totalSectors - RESERVED_SECTORS + 127 * spc) / (fc + 128 * spc)
    ensures var g := Geometry(totalSectors - RESERVED_SECTORS, fc, spc);
      ENTRY_BYTES * Clusters(g, fatSize) <= BYTES_PER_SECTOR * fatSize &&
      BYTES_PER_SECTOR * fatSize < ENTRY_BYTES * Clusters(g, fatSize) + BYTES_PER_SECTOR
  {
    hide Step, Clusters;
    var g := Geometry(totalSectors - RESERVED_SECTORS, fc, spc);
    ghost var p := Solution(g);
    FixedIff(g);
    fatSize := 0;
    var more := true;
    while more
      invariant fatSize <= Step(g, 0) && (!more ==> fatSize == p)
      decreases Distance(p, fatSize, FarAbove(g)), more
    {
      var prev := fatSize;
      var clusters := Clusters(g, prev);
      fatSize := Sectors(g, prev, clusters);
      Leads(g, prev);
      more := fatSize != prev;
    }
    FixedHolds(g, p);
  }

  method Sectors(g: Geometry, x: nat, clusters: nat) returns (n: nat)
    requires g.spc > 0 && clusters == Clusters(g, x)
    ensures n == Step(g, x)
  {
    n := (clusters * ENTRY_BYTES + BYTES_PER_SECTOR - 1) / BYTES_PER_SECTOR;
  }

  /** Some iterate is a fixed point. */
  ghost predicate Ends(g: Geometry)
    requires g.spc > 0
  {
    exists k: nat :: Fixed(g, Iterate(g, k))
  }

  lemma {:induction false} EndsInBracket(g: Geometry)
    requires Roomy(g) && Ends(g)
    ensures exists p: nat :: p <= Step(g, 0) && Fixed(g, p)
  {
    var k: nat :| Fixed(g, Iterate(g, k));
    if k > 0 {
      Bracket(g, k);
    }
  }

  lemma {:induction false} Reaches(g: Geometry, k: nat)
    requires Roomy(g) && Settles(g) && Iterate(g, k) <= Step(g, 0)
    ensures Ends(g)
    decreases Distance(Solution(g), Iterate(g, k), FarAbove(g))
  {
    hide Step, Fixed, Clusters, Settles;
    if Iterate(g, k) == Solution(g) {
      SettledIsSolvable(g);
      FixedIff(g);
    } else {
      Leads(g, Iterate(g, k));
      Reaches(g, k + 1);
    }
  }

  lemma SettledIsSolvable(g: Geometry)
    requires g.spc > 0 && Settles(g)
    ensures Solvable(g)
  {
  }

  /** Where the test fails, the step leaps over the fixed point from either side. */
  lemma {:induction false} LeapsOver(g: Geometry, x: nat)
    requires Roomy(g) && Solvable(g) && !Settles(g) && x <= Step(g, 0) && x != Solution(g)
    ensures Step(g, x) <= Step(g, 0) && Step(g, x) != Solution(g)
  {
    hide Step, Clusters;
    var p := Solution(g);
    assert g.fc * 1 == g.fc && g.fc * -1 == 0 - g.fc && g.spc * 1 == g.spc && g.spc * 0 == 0;
    StepAntitone(g, 0, x);
    FixedIff(g);
    if x < p {
      Around(g, p - 1, p + 1, -1, 1);
      StepAntitone(g, x, p - 1);
    } else {
      Around(g, p + 1, p, 1, 0);
      StepAntitone(g, p + 1, x);
    }
  }

  lemma {:induction false} NeverThere(g: Geometry, k: nat)
    requires Roomy(g) && Solvable(g) && !Settles(g)
    ensures Iterate(g, k) <= Step(g, 0) && Iterate(g, k) != Solution(g)
  {
    hide Step, Clusters;
    if k > 0 {
      NeverThere(g, k - 1);
      LeapsOver(g, Iterate(g, k - 1));
    }
  }

  /** The loop ends exactly on the disks that pass the arithmetic test. */
  lemma {:induction false} EndsIff(g: Geometry)
    requires Roomy(g)
    ensures Ends(g) <==> Settles(g)
  {
    hide Step, Fixed, Clusters;
    FixedIff(g);
    if Settles(g) {
      Reaches(g, 0);
    } else if Ends(g) {
      EndsInBracket(g);
      var k: nat :| Fixed(g, Iterate(g, k));
      NeverThere(g, k);
      assert false;
    }
  }

  /** `q` is a fixed point, or the iteration swings between `q` and `q + 1`. */
  ghost predicate Caught(g: Geometry, q: nat)
    requires g.spc > 0
  {
    Fixed(g, q) || (Step(g, q) == q + 1 && Step(g, q + 1) == q)
  }

  /** Where there is no fixed point, two adjacent sizes catch the iteration, as long as a step is not
      steeper than one to one. */
  lemma {:induction false} FixedOrCycle(g: Geometry, x: nat)
    requires Roomy(g) && g.fc <= 128 * g.spc && x <= Step(g, 0) && Step(g, x) >= x
    ensures exists q: nat :: q <= Step(g, 0) && Caught(g, q)
    decreases Step(g, 0) - x
  {
    hide Step, Clusters;
    StepAntitone(g, 0, x);
    if Step(g, x) > x && Step(g, x + 1) >= x + 1 {
      FixedOrCycle(g, x + 1);
    } else {
      if Step(g, x) > x {
        NoWrap(g, x + 1);
        Adjacent(g, x);
      }
      assert Caught(g, x);
    }
  }

  lemma {:induction false} Adjacent(g: Geometry, x: nat)
    requires Roomy(g) && g.fc <= 128 * g.spc && x + 1 <= Step(g, 0) && Step(g, x) > x && Step(g, x + 1) <= x
    ensures Step(g, x) == x + 1 && Step(g, x + 1) == x
  {
    hide Step, Clusters;
    NoWrap(g, x);
    NoWrap(g, x + 1);
    StepAtLeast(g, x, x + 1);
    StepAtLeast(g, x, x + 2);
    StepAtLeast(g, x + 1, x);
    StepAtLeast(g, x + 1, x + 1);
    assert g.fc * (x + 1) == g.fc * x + g.fc && g.spc * (x + 1) == g.spc * x + g.spc &&
      g.spc * (x + 2) == g.spc * x + 2 * g.spc;
  }

  /** The default options on a volume of 252 MB: the remainder is too large, and the loop does
      not end. */
  lemma {:induction false} DefaultCycle()
    ensures var g := Geometry(252 * 2048 - RESERVED_SECTORS, 4, 8);
      Roomy(g) && Remainder(g) == 1024 == 128 * g.spc && !Ends(g)
  {
    var g := Geometry(252 * 2048 - RESERVED_SECTORS, 4, 8);
    EndsIff(g);
  }

  // ----- which options are safe

  /** The options for which every fixed point is reached: the step is not steep, or so steep that
      only the disk without a cluster is roomy. */
  predicate Gentle(fc: nat, spc: nat) {
    fc <= 64 * spc || 2 * fc >= 257 * spc
  }

  /** Where the copies outweigh the clusters, a disk that is roomy and has a fixed point holds no
      cluster at all. */
  lemma {:induction false} OnlyEmpty(g: Geometry)
    requires Roomy(g) && 2 * g.fc >= 257 * g.spc && Solvable(g)
    ensures Step(g, 0) == 0
  {
    hide Step, Clusters;
    var c, n := g.sectors / g.spc, Step(g, 0);
    Unwrapped(g, 0, 0);
    if n > 0 {
      TooHeavy(g.sectors, g.fc, g.spc, c, n);
      DivModUnique(Dividend(g), Divisor(g), 0, Dividend(g));
    }
  }

  lemma Scaled(a: nat, n: nat)
    ensures a * (128 * n) == 128 * (a * n) && n * (257 * a) == 257 * (a * n) && n * (2 * a) == 2 * (a * n)
  {
  }

  lemma {:induction false} TooHeavy(sectors: nat, fc: nat, spc: nat, c: nat, n: nat)
    requires spc > 0 && 2 * fc >= 257 * spc && 0 < n && c <= 128 * n && c == sectors / spc && fc * n <= sectors
    ensures n == 1 && fc <= sectors < 129 * spc
  {
    var q := spc * n;
    assert sectors < 128 * q + spc by {
      assert sectors == spc * c + sectors % spc;
      MulMonotone(spc, c, 128 * n);
      Scaled(spc, n);
    }
    assert 257 * q <= 2 * (fc * n) by {
      MulMonotone(n, 257 * spc, 2 * fc);
      Scaled(spc, n);
      Scaled(fc, n);
    }
    assert q < 2 * spc;
    assert n == 1 by {
      MulFar(spc, n - 2);
      assert spc * (n - 2) == q - 2 * spc;
    }
    assert fc * n == fc && q == spc;
  }

  /** A disk on which the iteration swings around its fixed point 1 for ever. */
  function Swing(fc: nat, spc: nat): Geometry {
    Geometry(2 * fc + if fc <= 128 * spc && spc > 0 then spc - 1 else 0, fc, spc)
  }

  lemma {:induction false} SteepCycle(fc: nat, spc: nat)
    requires spc > 0 && !Gentle(fc, spc) && 2 * fc + spc <= U32
    ensures var g := Swing(fc, spc); Roomy(g) && Solvable(g) && Solution(g) == 1 && !Ends(g)
  {
    hide Step, Clusters;
    var g := Swing(fc, spc);
    assert fc * 0 == 0 && spc * 3 == 3 * spc;
    StepAtLeast(g, 0, 3);
    assert Roomy(g) by {
      MulMonotone(fc, Step(g, 0), 2);
      assert fc * 2 == 2 * fc;
    }
    DivModUnique(Dividend(g), Divisor(g), 1, Dividend(g) - Divisor(g));
    EndsIff(g);
  }

  /** The loop ends on every disk that has a fixed point exactly when the options are gentle. */
  lemma {:induction false} GentleIff(fc: nat, spc: nat)
    requires spc > 0 && 2 * fc + spc <= U32
    ensures (forall sectors: nat | HasFixedPoint(Geometry(sectors, fc, spc)) :: Ends(Geometry(sectors, fc, spc)))
      <==> Gentle(fc, spc)
  {
    if Gentle(fc, spc) {
      forall sectors: nat | HasFixedPoint(Geometry(sectors, fc, spc)) ensures Ends(Geometry(sectors, fc, spc)) {
        GentleSettles(Geometry(sectors, fc, spc));
      }
    } else {
      SteepCycle(fc, spc);
      assert Swing(fc, spc) == Geometry(Swing(fc, spc).sectors, fc, spc);
    }
  }

  ghost predicate HasFixedPoint(g: Geometry) {
    Roomy(g) && Solvable(g)
  }

  lemma {:induction false} GentleSettles(g: Geometry)
    requires HasFixedPoint(g) && Gentle(g.fc, g.spc)
    ensures Settles(g) && Ends(g)
  {
    hide Step, Clusters;
    if g.fc > 64 * g.spc {
      OnlyEmpty(g);
      FixedIff(g);
    }
    EndsIff(g);
  }
}
