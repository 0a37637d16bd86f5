/** The risk formula, over the reals. */
module Risk {
  datatype Band = Critical | High | Medium | Low

  function Min(a: real, b: real): real {
    if a < b then a else b
  }

  function Max(a: real, b: real): real {
    if a < b then b else a
  }

  function Clamp(value: real, low: real, high: real): real {
    Max(low, Min(high, value))
  }

  function Urgency(x: real, y: real, z: real, broken: bool): real
    requires broken || z != 0.0
  {
    if broken then 1.0 else Clamp(0.5 + (x + y - z) / (2.0 * z), 0.05, 1.0)
  }

  function Product(v: real, f: real, u: real, e: real, k: real): real {
    100.0 * v * f * u * e * k
  }

  function Score(v: real, f: real, e: real, k: real, u: real): real {
    Clamp(Product(v, f, u, e, k), 0.0, 100.0)
  }

  function BandFor(score: real): Band {
    if score >= 60.0 then Critical else if score >= 35.0 then High else if score >= 15.0 then Medium else Low
  }

  /** The score, urgency and band for given factors and horizon. */
  function Rescore(v: real, f: real, e: real, k: real, x: real, y: real, z: real, broken: bool): (real, real, Band)
    requires broken || z != 0.0
  {
    var u := Urgency(x, y, z, broken);
    var score := Score(v, f, e, k, u);
    (score, u, BandFor(score))
  }

  // ----- Further horizons -----

  /** How severe a band is, the most severe first. */
  function Rank(b: Band): nat {
    match b
    case Critical => 0
    case High => 1
    case Medium => 2
    case Low => 3
  }

  lemma {:induction false} BandFollowsScore(s: real, t: real)
    requires s <= t
    ensures Rank(BandFor(t)) <= Rank(BandFor(s))
  {
  }

  lemma {:induction false} QuotientFalls(a: real, z: real, far: real)
    requires 0.0 < z <= far && a >= 0.0
    ensures a / far <= a / z
  {
  }

  lemma {:induction false} MarginShare(s: real, z: real)
    requires z > 0.0
    ensures 0.5 + (s - z) / (2.0 * z) == s / (2.0 * z)
  {
    var d := 2.0 * z;
    assert (s - z) / d == s / d - z / d by {
      assert ((s - z) / d) * d == s - z && (s / d) * d == s && (z / d) * d == z;
    }
    assert z / d == 0.5 by {
      assert 0.5 * d == z;
    }
  }

  /** A longer horizon never makes migration more urgent. */
  lemma {:induction false} UrgencyFalls(x: real, y: real, z: real, far: real, broken: bool)
    requires 0.0 < z <= far
    ensures Urgency(x, y, far, broken) <= Urgency(x, y, z, broken)
  {
    if !broken {
      MarginShare(x + y, z);
      MarginShare(x + y, far);
      if x + y >= 0.0 {
        QuotientFalls(x + y, 2.0 * z, 2.0 * far);
      } else {
        NegativeShare(x + y, 2.0 * far);
        NegativeShare(x + y, 2.0 * z);
      }
    }
  }

  lemma {:induction false} NegativeShare(a: real, d: real)
    requires a < 0.0 < d
    ensures a / d < 0.0
  {
  }

  lemma {:induction false} UrgencyPositive(x: real, y: real, z: real, broken: bool)
    requires broken || z != 0.0
    ensures 0.05 <= Urgency(x, y, z, broken) <= 1.0
  {
  }

  /** The urgency can be taken out as the last factor. */
  lemma {:induction false} ProductShape(v: real, f: real, u: real, e: real, k: real)
    ensures Product(v, f, u, e, k) == Weight(v, f, e, k) * u
  {
  }

  function Weight(v: real, f: real, e: real, k: real): real {
    100.0 * v * f * (e * k)
  }

  lemma {:induction false} ProductMonotone(c: real, u: real, w: real)
    requires 0.0 <= u <= w
    ensures Clamp(c * u, 0.0, 100.0) <= Clamp(c * w, 0.0, 100.0)
  {
    if c >= 0.0 {
      assert c * (w - u) >= 0.0;
    } else {
      assert c * u <= 0.0 by { assert (-c) * u >= 0.0; }
    }
  }

  lemma {:induction false} ScoreFalls(v: real, f: real, e: real, k: real, u: real, w: real)
    requires 0.0 <= u <= w
    ensures Score(v, f, e, k, u) <= Score(v, f, e, k, w)
  {
    ProductShape(v, f, u, e, k);
    ProductShape(v, f, w, e, k);
    ProductMonotone(Weight(v, f, e, k), u, w);
  }

  /** A longer horizon never makes a finding more severe, whatever the signs of its factors. */
  lemma {:induction false} LongerHorizonNeverRaisesBand(v: real, f: real, e: real, k: real, x: real, y: real, z: real,
                                                        far: real, broken: bool)
    requires 0.0 < z <= far
    ensures Rescore(v, f, e, k, x, y, far, broken).0 <= Rescore(v, f, e, k, x, y, z, broken).0
    ensures Rank(Rescore(v, f, e, k, x, y, z, broken).2) <= Rank(Rescore(v, f, e, k, x, y, far, broken).2)
  {
    UrgencyFalls(x, y, z, far, broken);
    UrgencyPositive(x, y, far, broken);
    ScoreFalls(v, f, e, k, Urgency(x, y, far, broken), Urgency(x, y, z, broken));
    BandFollowsScore(Rescore(v, f, e, k, x, y, far, broken).0, Rescore(v, f, e, k, x, y, z, broken).0);
  }
}
