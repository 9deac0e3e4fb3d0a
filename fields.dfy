/** The five date/time fields, their limits, and the arithmetic the entry
    dialog performs on them: circular cursor movement and wrap-around
    increment and decrement. */
module Fields {

  /** Field positions in traversal order (E_YEAR .. E_MIN). */
  const Year := 0
  const Month := 1
  const Day := 2
  const Hour := 3
  const Minute := 4
  const FieldCount := 5

  /** A field position; the cursor always holds one. */
  type Field = i: int | 0 <= i < 5

  /** Inclusive upper and lower limit of each field (limits_up, limits_down).
      Year 0..99 stands for 2000..2099. */
  const LimitsUp: seq<int> := [99, 12, 31, 23, 59]
  const LimitsDown: seq<int> := [0, 1, 1, 0, 0]

  predicate InRange(f: Field, v: int) {
    LimitsDown[f] <= v <= LimitsUp[f]
  }

  /** Number of values a field can take. */
  function Span(f: Field): (n: int)
    ensures n >= 12
  {
    LimitsUp[f] - LimitsDown[f] + 1
  }

  /** cursor_fwd: Minute wraps to Year. */
  function NextField(c: Field): (r: Field)
    ensures r == (c + 1) % FieldCount
  {
    if c == Minute then Year else c + 1
  }

  /** cursor_back: Year wraps to Minute. */
  function PrevField(c: Field): (r: Field)
    ensures r == (c - 1) % FieldCount
  {
    if c == Year then Minute else c - 1
  }

  lemma CursorMovesAreInverse(c: Field)
    ensures PrevField(NextField(c)) == c
    ensures NextField(PrevField(c)) == c
    ensures NextField(c) != c && PrevField(c) != c
  {
  }

  /** The cursor after n presses of Right, and after n presses of Left. */
  function ForwardN(c: Field, n: nat): Field {
    if n == 0 then c else NextField(ForwardN(c, n - 1))
  }

  function BackN(c: Field, n: nat): Field {
    if n == 0 then c else PrevField(BackN(c, n - 1))
  }

  lemma {:induction false} ForwardNIsModular(c: Field, n: nat)
    ensures ForwardN(c, n) == (c + n) % FieldCount
  {
    if n > 0 {
      ForwardNIsModular(c, n - 1);
      ModSucc(c + n - 1, FieldCount);
    }
  }

  lemma {:induction false} BackNIsModular(c: Field, n: nat)
    ensures BackN(c, n) == (c - n) % FieldCount
  {
    if n > 0 {
      BackNIsModular(c, n - 1);
      ModPred(c - n + 1, FieldCount);
    }
  }

  /** Five presses of either arrow bring the cursor back where it started. */
  lemma FivePressesAreIdentity(c: Field)
    ensures ForwardN(c, 5) == c && BackN(c, 5) == c
  {
    ForwardNIsModular(c, 5);
    BackNIsModular(c, 5);
  }

  /** increment: one up, wrapping past the upper limit to the lower one. */
  function Incremented(f: Field, v: int): (r: int)
    ensures InRange(f, v) ==> InRange(f, r)
  {
    if v + 1 > LimitsUp[f] then LimitsDown[f] else v + 1
  }

  /** decrement: one down, wrapping past the lower limit to the upper one. */
  function Decremented(f: Field, v: int): (r: int)
    ensures InRange(f, v) ==> InRange(f, r)
  {
    if v - 1 < LimitsDown[f] then LimitsUp[f] else v - 1
  }

  /** Within the limits, increment and decrement undo each other, and each
      wraps exactly at its own edge. */
  lemma IncrementDecrementInverse(f: Field, v: int)
    requires InRange(f, v)
    ensures Decremented(f, Incremented(f, v)) == v
    ensures Incremented(f, Decremented(f, v)) == v
    ensures Incremented(f, v) == LimitsDown[f] <==> v == LimitsUp[f]
    ensures Decremented(f, v) == LimitsUp[f] <==> v == LimitsDown[f]
  {
  }

  /** Increment and decrement are +1 and -1 modulo the field's span,
      counted from its lower limit. */
  lemma StepsAreModular(f: Field, v: int)
    requires InRange(f, v)
    ensures Incremented(f, v) - LimitsDown[f] == (v - LimitsDown[f] + 1) % Span(f)
    ensures Decremented(f, v) - LimitsDown[f] == (v - LimitsDown[f] - 1) % Span(f)
  {
  }

  /** The field value after n presses of Up, and after n presses of Down. */
  function IncrementN(f: Field, v: int, n: nat): int {
    if n == 0 then v else Incremented(f, IncrementN(f, v, n - 1))
  }

  function DecrementN(f: Field, v: int, n: nat): int {
    if n == 0 then v else Decremented(f, DecrementN(f, v, n - 1))
  }

  lemma {:induction false} IncrementNIsModular(f: Field, v: int, n: nat)
    requires InRange(f, v)
    ensures IncrementN(f, v, n) == LimitsDown[f] + (v - LimitsDown[f] + n) % Span(f)
  {
    if n > 0 {
      IncrementNIsModular(f, v, n - 1);
      var w := IncrementN(f, v, n - 1);
      StepsAreModular(f, w);
      ModOfMod(v - LimitsDown[f] + n - 1, Span(f));
    }
  }

  lemma {:induction false} DecrementNIsModular(f: Field, v: int, n: nat)
    requires InRange(f, v)
    ensures DecrementN(f, v, n) == LimitsDown[f] + (v - LimitsDown[f] - n) % Span(f)
  {
    if n > 0 {
      DecrementNIsModular(f, v, n - 1);
      var w := DecrementN(f, v, n - 1);
      StepsAreModular(f, w);
      ModOfModPred(v - LimitsDown[f] - n + 1, Span(f));
    }
  }

  /** Pressing Up (or Down) as many times as the field has values returns
      to the starting value. */
  lemma FullCycleIsIdentity(f: Field, v: int)
    requires InRange(f, v)
    ensures IncrementN(f, v, Span(f)) == v
    ensures DecrementN(f, v, Span(f)) == v
  {
    IncrementNIsModular(f, v, Span(f));
    DecrementNIsModular(f, v, Span(f));
    ModShift(v - LimitsDown[f], Span(f));
  }

  /** Two-digit entry rule: rejected above the upper limit, below the lower
      limit, and for a Year below 9. */
  predicate Acceptable(f: Field, res: int)
    ensures Acceptable(f, res) <==> InRange(f, res) && (f == Year ==> res >= 9)
  {
    !(res > LimitsUp[f] || res < LimitsDown[f] || (res < 9 && f == Year))
  }

  /** prepare's year: tm_year counts from 1900, the field from 2000; a
      result below 9 becomes 0. Years past 2099 are not clamped. */
  function SeedYear(tmYear: int): (y: int)
    ensures y == 0 || y >= 9
    ensures tmYear < 109 ==> y == 0
    ensures tmYear >= 109 ==> y + 2000 == tmYear + 1900
  {
    if tmYear - 100 < 9 then 0 else tmYear - 100
  }

  // Small facts about Euclidean remainder used above.

  /** A multiple of m strictly between -m and m is zero. */
  lemma SmallMultiple(k: int, m: int)
    requires m > 0 && -m < k * m < m
    ensures k == 0
  {
  }

  /** The remainder is determined by any quotient-remainder split. */
  lemma ModUnique(a: int, m: int, q: int, r: int)
    requires m > 0 && 0 <= r < m && a == q * m + r
    ensures a % m == r
  {
    var q', r' := a / m, a % m;
    assert (q - q') * m == r' - r;
    SmallMultiple(q - q', m);
  }

  lemma ModSucc(a: int, m: int)
    requires m > 0
    ensures (a + 1) % m == if a % m == m - 1 then 0 else a % m + 1
  {
    var q, r := a / m, a % m;
    if r == m - 1 {
      assert a + 1 == (q + 1) * m + 0;
      ModUnique(a + 1, m, q + 1, 0);
    } else {
      ModUnique(a + 1, m, q, r + 1);
    }
  }

  lemma ModPred(a: int, m: int)
    requires m > 0
    ensures (a - 1) % m == if a % m == 0 then m - 1 else a % m - 1
  {
    var q, r := a / m, a % m;
    if r == 0 {
      assert a - 1 == (q - 1) * m + (m - 1);
      ModUnique(a - 1, m, q - 1, m - 1);
    } else {
      ModUnique(a - 1, m, q, r - 1);
    }
  }

  lemma ModOfMod(a: int, m: int)
    requires m > 0
    ensures (a % m + 1) % m == (a + 1) % m
  {
    ModSucc(a, m);
  }

  lemma ModOfModPred(a: int, m: int)
    requires m > 0
    ensures (a % m - 1) % m == (a - 1) % m
  {
    ModPred(a, m);
  }

  lemma ModShift(a: int, m: int)
    requires 0 <= a < m
    ensures (a + m) % m == a && (a - m) % m == a
  {
  }
}
