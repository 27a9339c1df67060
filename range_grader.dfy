/** `RangeGrader`: accepts a number when its salted encryption lies strictly
    between two encrypted thresholds, each drawn at random near the encryption
    of one salted bound. The bounds here are the integers grader.py gets
    after dividing by `scale` and truncating (scale 1). */
module RangeGrading {
  import opened Failures
  import opened Ope
  import Randomness

  /** The salt range `random.randint(0, 2^128 - 1 - offset)` draws from,
      with `offset = ub - lb`. */
  predicate SaltOk(lb: int, ub: int, salt: int) {
    0 <= salt <= DomainMax - (ub - lb)
  }

  /** The four plaintexts encrypted at construction all lie in the domain. */
  predicate EncryptsInDomain(lb: int, ub: int, salt: int) {
    InDomain(lb + salt - 1) && InDomain(lb + salt + 1) &&
    InDomain(ub + salt - 1) && InDomain(ub + salt + 1)
  }

  /** Thresholds `lo` and `hi` that the construction may publish: each lies
      between the encryptions of the two salted neighbours of its bound. */
  predicate Admissible(c: Cipher, lb: int, ub: int, salt: int, lo: int, hi: int) {
    c.enc(lb + salt - 1) <= lo <= c.enc(lb + salt + 1) &&
    c.enc(ub + salt - 1) <= hi <= c.enc(ub + salt + 1)
  }

  /** The grading test: the salted candidate encrypts strictly between the thresholds. */
  predicate Accepts(c: Cipher, salt: int, lo: int, hi: int, v: int) {
    lo < c.enc(v + salt) < hi
  }

  class RangeGrader {
    // Fixed at construction and never assigned again.
    // `key` and `cipher` of grader.py: the cipher the generated key determines
    const cipher: Cipher
    const salt: int
    // the published, randomised encrypted thresholds
    const lowerBound: int
    const upperBound: int
    // the true (scaled) bounds; grader.py does not keep them
    ghost const lb: int
    ghost const ub: int

    ghost predicate Valid() {
      IsOrderPreserving(cipher) &&
      SaltOk(lb, ub, salt) &&
      EncryptsInDomain(lb, ub, salt) &&
      Admissible(cipher, lb, ub, salt, lowerBound, upperBound)
    }

    /** Stores the state that a successful construction has derived. */
    constructor (cipher: Cipher, salt: int, lowerBound: int, upperBound: int, ghost lb: int, ghost ub: int)
      requires IsOrderPreserving(cipher)
      requires SaltOk(lb, ub, salt) && EncryptsInDomain(lb, ub, salt)
      requires Admissible(cipher, lb, ub, salt, lowerBound, upperBound)
      ensures Valid()
      ensures this.cipher == cipher && this.salt == salt
      ensures this.lowerBound == lowerBound && this.upperBound == upperBound
      ensures this.lb == lb && this.ub == ub
    {
      this.cipher := cipher;
      this.salt := salt;
      this.lowerBound := lowerBound;
      this.upperBound := upperBound;
      this.lb := lb;
      this.ub := ub;
    }

    /** `RangeGrader(lower, upper)`, with `cipher` the instance built from the
        freshly generated key. The ghost `salt` is the salt drawn; construction
        raises exactly when the salt range is empty or one of the four
        encrypted neighbours of the salted bounds leaves the domain. */
    static method New(lower: int, upper: int, cipher: Cipher) returns (r: Result<RangeGrader>, ghost salt: int)
      requires IsOrderPreserving(cipher)
      ensures upper - lower > DomainMax ==> r == Err(EmptyRange)
      ensures upper - lower <= DomainMax ==> SaltOk(lower, upper, salt)
      ensures r.Ok? <==> upper - lower <= DomainMax && EncryptsInDomain(lower, upper, salt)
      ensures r.Err? && upper - lower <= DomainMax ==> r.error == OutOfDomain
      ensures r.Ok? ==> fresh(r.value) && r.value.Valid()
      ensures r.Ok? ==> r.value.cipher == cipher && r.value.salt == salt
      ensures r.Ok? ==> r.value.lb == lower && r.value.ub == upper
    {
      var offset := upper - lower;
      var drawn := Randomness.RandInt(0, DomainMax - offset);
      if drawn.Err? {
        return Err(drawn.error), 0;
      }
      var s := drawn.value;
      salt := s;

      var lbM1 := Encrypt(cipher, lower + s - 1);
      if lbM1.Err? {
        return Err(lbM1.error), salt;
      }
      var lbP1 := Encrypt(cipher, lower + s + 1);
      if lbP1.Err? {
        return Err(lbP1.error), salt;
      }
      // random.randint(lb_m1, lb_p1) cannot raise: the cipher preserves order
      assert lbM1.value < lbP1.value;
      var lowerDrawn := Randomness.RandInt(lbM1.value, lbP1.value);
      assert lowerDrawn.Ok?;
      var lowerThreshold := lowerDrawn.value;

      var ubM1 := Encrypt(cipher, upper + s - 1);
      if ubM1.Err? {
        return Err(ubM1.error), salt;
      }
      var ubP1 := Encrypt(cipher, upper + s + 1);
      if ubP1.Err? {
        return Err(ubP1.error), salt;
      }
      assert ubM1.value < ubP1.value;
      var upperDrawn := Randomness.RandInt(ubM1.value, ubP1.value);
      assert upperDrawn.Ok?;
      var upperThreshold := upperDrawn.value;

      var g := new RangeGrader(cipher, s, lowerThreshold, upperThreshold, lower, upper);
      r := Ok(g);
    }

    /** `grade(value)`: raises when the salted value leaves the cipher's domain,
        and otherwise says whether it encrypts strictly between the thresholds.
        As a function of constant fields it changes nothing. */
    function Grade(value: int): (r: Result<bool>)
      ensures r.Err? <==> !InDomain(value + salt)
      ensures r.Err? ==> r.error == OutOfDomain
      ensures r.Ok? ==> (r.value <==> Accepts(cipher, salt, lowerBound, upperBound, value))
    {
      var c := Encrypt(cipher, value + salt);
      if c.Err? then Err(c.error) else Ok(c.value < upperBound && c.value > lowerBound)
    }
  }

  // ---------------------------------------------------------------------------
  // Where the salted plaintexts lie

  function Min(a: int, b: int): int { if a <= b then a else b }

  function Max(a: int, b: int): int { if a <= b then b else a }

  /** The four encrypted neighbours stay in the domain exactly for the salts of
      [1 - min(lb, ub), 2^128 - 2 - max(lb, ub)] (with the bounds in order:
      [1 - lb, 2^128 - 2 - ub]), which is not the range
      [0, 2^128 - 1 - (ub - lb)] the salt is drawn from. */
  lemma EncryptsInDomainExactly(lb: int, ub: int, salt: int)
    ensures EncryptsInDomain(lb, ub, salt) <==> 1 - Min(lb, ub) <= salt <= DomainMax - 1 - Max(lb, ub)
  {
  }

  /** Whatever the bounds, some salt that the construction may draw sends one
      of the encrypted neighbours out of the domain: with `lb <= 0` the salt 0
      makes `lb + salt - 1` negative, and with `lb > 0` the largest salt makes
      `ub + salt + 1` exceed 2^128 - 1. */
  lemma SomeSaltLeavesDomain(lb: int, ub: int)
    requires ub - lb <= DomainMax
    ensures exists salt :: SaltOk(lb, ub, salt) && !EncryptsInDomain(lb, ub, salt)
  {
    if lb <= 0 {
      assert SaltOk(lb, ub, 0) && !InDomain(lb + 0 - 1);
    } else {
      var top := DomainMax - (ub - lb);
      assert SaltOk(lb, ub, top) && !InDomain(ub + top + 1);
    }
  }

  /** The drawn salt keeps the salted bounds themselves (not their neighbours)
      in the domain for every possible draw exactly when the lower bound is 0. */
  lemma SaltedBoundsInDomainIffZeroLower(lb: int, ub: int)
    requires 0 <= ub - lb <= DomainMax
    ensures (forall salt :: SaltOk(lb, ub, salt) ==> InDomain(lb + salt) && InDomain(ub + salt)) <==> lb == 0
  {
    if lb < 0 {
      assert SaltOk(lb, ub, 0) && !InDomain(lb + 0);
    } else if lb > 0 {
      var top := DomainMax - (ub - lb);
      assert SaltOk(lb, ub, top) && !InDomain(ub + top);
    }
  }

  // ---------------------------------------------------------------------------
  // The thresholds

  /** Both published thresholds are ciphertexts of the output range. */
  lemma ThresholdsInRange(c: Cipher, lb: int, ub: int, salt: int, lo: int, hi: int)
    requires IsOrderPreserving(c) && EncryptsInDomain(lb, ub, salt)
    requires Admissible(c, lb, ub, salt, lo, hi)
    ensures InRange(lo) && InRange(hi)
  {
  }

  /** Bounds at least two apart give thresholds in order. */
  lemma ThresholdsOrdered(c: Cipher, lb: int, ub: int, salt: int, lo: int, hi: int)
    requires IsOrderPreserving(c) && EncryptsInDomain(lb, ub, salt)
    requires Admissible(c, lb, ub, salt, lo, hi)
    requires ub - lb >= 2
    ensures lo <= hi
  {
    if lb + salt + 1 < ub + salt - 1 {
      assert c.enc(lb + salt + 1) < c.enc(ub + salt - 1);
    }
  }

  /** Two apart is the least that guarantees it: bounds one apart admit a
      lower threshold above the upper one. */
  lemma ThresholdsMayCross(c: Cipher, lb: int, ub: int, salt: int)
    requires IsOrderPreserving(c) && EncryptsInDomain(lb, ub, salt)
    requires ub - lb == 1
    ensures exists lo, hi :: Admissible(c, lb, ub, salt, lo, hi) && hi < lo
  {
    var lo, hi := c.enc(lb + salt + 1), c.enc(ub + salt - 1);
    assert c.enc(lb + salt - 1) < lo;
    assert hi < c.enc(ub + salt + 1);
    assert Admissible(c, lb, ub, salt, lo, hi) && hi < lo;
  }

  // ---------------------------------------------------------------------------
  // Which candidates are decided

  /** A candidate outside [lb, ub] is rejected whatever thresholds were drawn. */
  lemma OutsideRejected(c: Cipher, lb: int, ub: int, salt: int, lo: int, hi: int, v: int)
    requires IsOrderPreserving(c) && EncryptsInDomain(lb, ub, salt)
    requires Admissible(c, lb, ub, salt, lo, hi)
    requires InDomain(v + salt)
    requires v < lb || v > ub
    ensures !Accepts(c, salt, lo, hi, v)
  {
    if v < lb - 1 {
      assert c.enc(v + salt) < c.enc(lb + salt - 1);
    } else if v > ub + 1 {
      assert c.enc(ub + salt + 1) < c.enc(v + salt);
    }
  }

  /** A candidate in [lb + 2, ub - 2] is accepted whatever thresholds were drawn. */
  lemma CoreAccepted(c: Cipher, lb: int, ub: int, salt: int, lo: int, hi: int, v: int)
    requires IsOrderPreserving(c) && EncryptsInDomain(lb, ub, salt)
    requires Admissible(c, lb, ub, salt, lo, hi)
    requires lb + 2 <= v <= ub - 2
    ensures InDomain(v + salt)
    ensures Accepts(c, salt, lo, hi, v)
  {
    assert c.enc(lb + salt + 1) < c.enc(v + salt);
    assert c.enc(v + salt) < c.enc(ub + salt - 1);
  }

  /** The remaining candidates of [lb, ub], those within one unit of a bound,
      are left open by the fuzzing: some admissible thresholds accept them
      and others reject them. With the two lemmas above this classifies
      every candidate. */
  lemma FringeUndecided(c: Cipher, lb: int, ub: int, salt: int, v: int)
    requires IsOrderPreserving(c) && EncryptsInDomain(lb, ub, salt)
    requires lb <= v <= ub
    requires v <= lb + 1 || v >= ub - 1
    ensures exists lo, hi :: Admissible(c, lb, ub, salt, lo, hi) && Accepts(c, salt, lo, hi, v)
    ensures exists lo, hi :: Admissible(c, lb, ub, salt, lo, hi) && !Accepts(c, salt, lo, hi, v)
  {
    var lbM1, lbP1 := c.enc(lb + salt - 1), c.enc(lb + salt + 1);
    var ubM1, ubP1 := c.enc(ub + salt - 1), c.enc(ub + salt + 1);
    var e := c.enc(v + salt);
    assert lbM1 < lbP1 && ubM1 < ubP1;
    assert lbM1 < e < ubP1;
    assert Admissible(c, lb, ub, salt, lbM1, ubP1) && Accepts(c, salt, lbM1, ubP1, v);
    if v <= lb + 1 {
      assert e <= lbP1;
      assert Admissible(c, lb, ub, salt, lbP1, ubP1) && !Accepts(c, salt, lbP1, ubP1, v);
    } else {
      assert ubM1 <= e;
      assert Admissible(c, lb, ub, salt, lbM1, ubM1) && !Accepts(c, salt, lbM1, ubM1, v);
    }
  }

  // ---------------------------------------------------------------------------
  // The same facts for a constructed grader

  /** A grader rejects every candidate outside its true bounds: `grade` either
      raises (the salted candidate leaves the domain) or answers false. */
  lemma GradeRejectsOutside(g: RangeGrader, v: int)
    requires g.Valid()
    requires v < g.lb || v > g.ub
    ensures g.Grade(v) != Ok(true)
    ensures InDomain(v + g.salt) ==> g.Grade(v) == Ok(false)
  {
    if InDomain(v + g.salt) {
      OutsideRejected(g.cipher, g.lb, g.ub, g.salt, g.lowerBound, g.upperBound, v);
    }
  }

  /** A grader accepts every candidate at least two units inside its bounds. */
  lemma GradeAcceptsCore(g: RangeGrader, v: int)
    requires g.Valid()
    requires g.lb + 2 <= v <= g.ub - 2
    ensures g.Grade(v) == Ok(true)
  {
    CoreAccepted(g.cipher, g.lb, g.ub, g.salt, g.lowerBound, g.upperBound, v);
  }

  /** `grade` never raises for candidates within one unit of the true bounds. */
  lemma GradeDefinedNearBounds(g: RangeGrader, v: int)
    requires g.Valid()
    requires g.lb - 1 <= v <= g.ub + 1
    ensures g.Grade(v).Ok?
  {
  }
}
