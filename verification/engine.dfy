/** The two console hp-bar builders of game/engine.py. `draw_health_bar` counts filled cells with
    integer floor division; `render_hp_bar` truncates a floating-point fraction, modelled here
    with exact reals. */
module Engine {
  import opened Wrappers
  import opened Numbers

  /** The character of a filled cell, U+2588 FULL BLOCK. */
  const FullBlock: char := '\U{2588}'

  /** Both builders divide by the maximum hp, which raises when it is 0. */
  datatype BarError = ZeroDivision

  /** Python's `//` on integers, which rounds toward negative infinity. */
  function FloorDiv(a: int, b: int): (q: int)
    requires b != 0
    ensures b > 0 ==> b * q <= a < b * q + b
    ensures b < 0 ==> b * q + b < a <= b * q
  {
    if b > 0 then a / b else (-a) / (-b)
  }

  /** Python's `int(x)` on a float, which rounds toward zero. */
  function Truncate(x: real): (n: int)
    ensures x >= 0.0 ==> n >= 0 && n as real <= x < n as real + 1.0
    ensures x < 0.0 ==> n <= 0 && n as real - 1.0 < x <= n as real
  {
    if x >= 0.0 then x.Floor else -((-x).Floor)
  }

  /** Python's `c * n` for a one-character string: empty when `n` is not positive. */
  function Repeat(c: char, n: int): (s: string)
    ensures |s| == Max(n, 0)
    ensures forall i :: 0 <= i < |s| ==> s[i] == c
    decreases n
  {
    if n <= 0 then [] else [c] + Repeat(c, n - 1)
  }

  /** The decimal digits of a natural number, most significant first. */
  function Digits(n: nat): (s: string)
    ensures |s| > 0 && forall i :: 0 <= i < |s| ==> '0' <= s[i] <= '9'
    ensures DigitsValue(s) == n
    ensures |s| == 1 || s[0] != '0'
  {
    if n < 10 then [DigitChar(n)] else Digits(n / 10) + [DigitChar(n % 10)]
  }

  function DigitChar(d: nat): (c: char)
    requires d < 10
  {
    "0123456789"[d]
  }

  /** The number a digit string denotes. */
  function DigitsValue(s: string): int
  {
    if |s| == 0 then 0 else 10 * DigitsValue(s[..|s| - 1]) + ((s[|s| - 1] as int) - ('0' as int))
  }

  /** Python's `str(n)` for an integer. */
  function DecimalString(n: int): (s: string)
    ensures |s| > 0 && (s[0] == '-' <==> n < 0)
    ensures var d := if n < 0 then s[1..] else s;
      && |d| > 0 && (forall i :: 0 <= i < |d| ==> '0' <= d[i] <= '9')
      && DigitsValue(d) == (if n < 0 then -n else n)
      && (|d| == 1 || d[0] != '0')
  {
    if n < 0 then "-" + Digits(-n) else Digits(n)
  }

  /** The filled cells of `draw_health_bar`: `bar_length * hp // max_hp`. */
  function FilledCells(hp: int, maxHp: int, barLength: int): int
    requires maxHp != 0
  {
    FloorDiv(barLength * hp, maxHp)
  }

  /** The bar of `draw_health_bar`: the filled run of full blocks, then `-` for the rest. */
  function HealthBar(hp: int, maxHp: int, barLength: int): string
    requires maxHp != 0
  {
    var filled := FilledCells(hp, maxHp, barLength);
    Repeat(FullBlock, filled) + Repeat('-', barLength - filled)
  }

  /** `draw_health_bar(name, hp, max_hp, bar_length)`. */
  function DrawHealthBar(name: string, hp: int, maxHp: int, barLength: int): (r: Result<string, BarError>)
    ensures r.Failure? <==> maxHp == 0
  {
    if maxHp == 0 then Failure(ZeroDivision)
    else Success((name + " HP: |") + HealthBar(hp, maxHp, barLength) + ("| " + DecimalString(hp) + "/" + DecimalString(maxHp)))
  }

  /** For hp between 0 and the maximum the filled count is between 0 and the bar length. */
  lemma FilledWithinBar(hp: int, maxHp: int, barLength: int)
    requires 0 <= hp <= maxHp && maxHp > 0 && barLength >= 0
    ensures 0 <= FilledCells(hp, maxHp, barLength) <= barLength
  {
    assert 0 <= barLength * hp <= barLength * maxHp;
    DivBelow(barLength * hp, maxHp, barLength);
  }

  /** `a / m <= k` whenever `a <= k * m`. */
  lemma DivBelow(a: int, m: int, k: int)
    requires m > 0 && 0 <= a <= k * m
    ensures a / m <= k
  {
    assert m * (a / m) <= a <= m * k;
    MulCancel(m, a / m, k);
  }

  /** `x <= y` whenever `m*x <= m*y` for a positive `m`. */
  lemma MulCancel(m: int, x: int, y: int)
    requires m > 0 && m * x <= m * y
    ensures x <= y
  {
    assert m * (y - x) >= 0;
  }

  /** A larger hp never gives fewer filled cells. */
  lemma FilledMonotone(hp1: int, hp2: int, maxHp: int, barLength: int)
    requires hp1 <= hp2 && maxHp > 0 && barLength >= 0
    ensures FilledCells(hp1, maxHp, barLength) <= FilledCells(hp2, maxHp, barLength)
  {
    assert barLength * hp1 <= barLength * hp2;
    DivMonotone(barLength * hp1, barLength * hp2, maxHp);
  }

  /** Floor division by a positive number is monotone. */
  lemma DivMonotone(a: int, b: int, m: int)
    requires a <= b && m > 0
    ensures a / m <= b / m
  {
    DivBounds(a, m);
    DivBounds(b, m);
    assert m * (b / m + 1) == m * (b / m) + m;
    MulCancelStrict(m, a / m, b / m + 1);
  }

  /** Euclidean division by a positive number brackets the dividend. */
  lemma DivBounds(a: int, m: int)
    requires m > 0
    ensures m * (a / m) <= a < m * (a / m) + m
  {
  }

  /** `x < y` whenever `m*x < m*y` for a positive `m`. */
  lemma MulCancelStrict(m: int, x: int, y: int)
    requires m > 0 && m * x < m * y
    ensures x < y
  {
    assert m * (y - x) > 0;
  }

  /** The quotient is the one `q` with `m*q <= a < m*q + m`. */
  lemma DivUnique(a: int, m: int, q: int)
    requires m > 0 && m * q <= a < m * q + m
    ensures a / m == q
  {
    DivBounds(a, m);
    assert m * (a / m + 1) == m * (a / m) + m;
    assert m * (q + 1) == m * q + m;
    MulCancelStrict(m, q, a / m + 1);
    MulCancelStrict(m, a / m, q + 1);
  }

  /** For hp between 0 and the maximum the bar is exactly `bar_length` cells: full blocks up to
      the filled count, then `-`. A full hp gives only full blocks and hp 0 only `-`. */
  lemma HealthBarShape(hp: int, maxHp: int, barLength: int)
    requires 0 <= hp <= maxHp && maxHp > 0 && barLength >= 0
    ensures |HealthBar(hp, maxHp, barLength)| == barLength
    ensures forall k :: 0 <= k < barLength ==>
      HealthBar(hp, maxHp, barLength)[k] == (if k < FilledCells(hp, maxHp, barLength) then FullBlock else '-')
    ensures hp == maxHp ==> HealthBar(hp, maxHp, barLength) == Repeat(FullBlock, barLength)
    ensures hp == 0 ==> HealthBar(hp, maxHp, barLength) == Repeat('-', barLength)
  {
    FilledWithinBar(hp, maxHp, barLength);
    var filled := FilledCells(hp, maxHp, barLength);
    if hp == maxHp {
      FullHpFillsBar(maxHp, barLength);
    }
    if hp == 0 {
      assert barLength * hp == 0;
    }
  }

  lemma FullHpFillsBar(maxHp: int, barLength: int)
    requires maxHp > 0 && barLength >= 0
    ensures FilledCells(maxHp, maxHp, barLength) == barLength
  {
    assert barLength * maxHp == maxHp * barLength;
    DivUnique(barLength * maxHp, maxHp, barLength);
  }

  /** A negative hp, which a live combatant can reach, gives a negative filled count: no full
      block at all, and a `-` run longer than the bar. */
  lemma NegativeHpOverflows(hp: int, maxHp: int, barLength: int)
    requires hp < 0 && maxHp > 0 && barLength > 0
    ensures FilledCells(hp, maxHp, barLength) < 0
    ensures HealthBar(hp, maxHp, barLength) == Repeat('-', barLength - FilledCells(hp, maxHp, barLength))
    ensures |HealthBar(hp, maxHp, barLength)| > barLength
  {
    assert barLength * hp < 0;
    assert Repeat(FullBlock, FilledCells(hp, maxHp, barLength)) == [];
  }

  /** The whole line: the name and " HP: |", the bar, then "| " and hp over the maximum. */
  lemma DrawHealthBarLayout(name: string, hp: int, maxHp: int, barLength: int)
    requires 0 <= hp <= maxHp && maxHp > 0 && barLength >= 0
    ensures DrawHealthBar(name, hp, maxHp, barLength).Success?
    ensures var out := DrawHealthBar(name, hp, maxHp, barLength).value;
      var start := |name| + 6;
      && |out| == start + barLength + 3 + |DecimalString(hp)| + |DecimalString(maxHp)|
      && out[..start] == name + " HP: |"
      && out[start..start + barLength] == HealthBar(hp, maxHp, barLength)
      && out[start + barLength..] == "| " + DecimalString(hp) + "/" + DecimalString(maxHp)
  {
    FilledWithinBar(hp, maxHp, barLength);
    assert |HealthBar(hp, maxHp, barLength)| == barLength;
    ThreeParts(name + " HP: |", HealthBar(hp, maxHp, barLength), "| " + DecimalString(hp) + "/" + DecimalString(maxHp));
  }

  /** Where the three parts of a concatenation sit. */
  lemma ThreeParts(head: string, mid: string, tail: string)
    ensures var out := head + mid + tail;
      && |out| == |head| + |mid| + |tail|
      && out[..|head|] == head
      && out[|head|..|head| + |mid|] == mid
      && out[|head| + |mid|..] == tail
  {
    var out := head + mid + tail;
    assert out[..|head|] == head;
    assert out[|head|..|head| + |mid|] == mid;
  }

  /** The filled cells of `render_hp_bar`: `int((hp / max_hp) * bar_length)`. */
  function RenderFilled(hp: int, maxHp: int, barLength: int): int
    requires maxHp != 0
  {
    Truncate((hp as real / maxHp as real) * barLength as real)
  }

  /** `render_hp_bar(hp, max_hp, bar_length)`: brackets around the filled run and spaces for
      the rest, then hp over the maximum. */
  function RenderHpBar(hp: int, maxHp: int, barLength: int): (r: Result<string, BarError>)
    ensures r.Failure? <==> maxHp == 0
  {
    if maxHp == 0 then Failure(ZeroDivision)
    else
      var filled := RenderFilled(hp, maxHp, barLength);
      Success("[" + Repeat(FullBlock, filled) + Repeat(' ', barLength - filled) + "] "
              + DecimalString(hp) + "/" + DecimalString(maxHp))
  }

  /** For a non-negative hp and bar length, truncating the exact fraction fills as many cells as
      the floor division of `draw_health_bar`. With the source's floating-point fraction this can
      fail by one cell. */
  lemma RenderAgreesWithDraw(hp: int, maxHp: int, barLength: int)
    requires hp >= 0 && maxHp > 0 && barLength >= 0
    ensures RenderFilled(hp, maxHp, barLength) == FilledCells(hp, maxHp, barLength)
  {
    var a := barLength * hp;
    var q := a / maxHp;
    var x := (hp as real / maxHp as real) * barLength as real;
    assert x == (a as real) / (maxHp as real);
    assert q * maxHp <= a < (q + 1) * maxHp;
    RealBetween(a, maxHp, q);
    assert x.Floor == q;
  }

  /** `q <= a/m < q + 1` over the reals when `q*m <= a < (q+1)*m`. */
  lemma RealBetween(a: int, m: int, q: int)
    requires m > 0 && q * m <= a < (q + 1) * m
    ensures (q as real) <= (a as real) / (m as real) < (q as real) + 1.0
  {
    assert (q * m) as real == (q as real) * (m as real);
    assert ((q + 1) * m) as real == ((q as real) + 1.0) * (m as real);
    RealDivBounds(a as real, m as real, q as real, (q as real) + 1.0);
  }

  /** Dividing `lo*m <= a < hi*m` by a positive `m`. */
  lemma RealDivBounds(a: real, m: real, lo: real, hi: real)
    requires m > 0.0 && lo * m <= a < hi * m
    ensures lo <= a / m < hi
  {
    var x := a / m;
    assert x * m == a;
    assert (x - lo) * m >= 0.0;
    assert (hi - x) * m > 0.0;
  }

  /** For hp between 0 and the maximum `render_hp_bar` also has exactly `bar_length` cells
      between its brackets. */
  lemma RenderShape(hp: int, maxHp: int, barLength: int)
    requires 0 <= hp <= maxHp && maxHp > 0 && barLength >= 0
    ensures var filled := RenderFilled(hp, maxHp, barLength);
      && 0 <= filled <= barLength
      && RenderHpBar(hp, maxHp, barLength).value
         == "[" + Repeat(FullBlock, filled) + Repeat(' ', barLength - filled) + "] "
            + DecimalString(hp) + "/" + DecimalString(maxHp)
      && |Repeat(FullBlock, filled) + Repeat(' ', barLength - filled)| == barLength
  {
    RenderAgreesWithDraw(hp, maxHp, barLength);
    FilledWithinBar(hp, maxHp, barLength);
  }

  /** Even with the exact fraction the two builders disagree below zero: at hp −1 of 300 on 20
      cells `draw_health_bar` fills −1 cells (21 dashes) while `render_hp_bar` fills 0. */
  lemma NegativeHpBuildersDisagree()
    ensures FilledCells(-1, 300, 20) == -1
    ensures RenderFilled(-1, 300, 20) == 0
  {
    var x := ((-1) as real / 300 as real) * 20 as real;
    assert -1.0 < x < 0.0;
  }
}
