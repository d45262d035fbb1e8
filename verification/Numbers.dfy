/** The few real-number helpers the control and vision code share. */
module Numbers {
  type NonZero = r: real | r != 0.0 witness 1.0

  type NonNegative = r: real | r >= 0.0

  function Max(a: real, b: real): real { if a < b then b else a }

  function Min(a: real, b: real): real { if b < a then b else a }

  function Abs(x: real): real { if x < 0.0 then -x else x }

  /** std::clamp */
  function Clamp(x: real, lo: real, hi: real): real {
    if x < lo then lo else if hi < x then hi else x
  }

  /** std::round: to the nearest integer, halves away from zero. */
  function Round(x: real): int {
    if x >= 0.0 then (x + 0.5).Floor else -((-x + 0.5).Floor)
  }

  /** Rounding gives the nearest whole number, the one farther from zero if two are, and is
      symmetric about zero. */
  lemma RoundIsNearest(x: real)
    ensures x - 0.5 <= Round(x) as real <= x + 0.5
    ensures x >= 0.0 ==> Round(x) as real > x - 0.5
    ensures Round(-x) == -Round(x)
  {
    assert Round(0.0) == 0;
  }
}
