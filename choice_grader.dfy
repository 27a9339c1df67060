/** `ChoiceGrader`: keeps a salted digest of the correct choice and accepts a
    candidate whose salted digest is the same. */
module ChoiceGrading {

  /** `secrets.token_hex(16)`: 32 lower-case hexadecimal digits. */
  predicate IsHexToken(s: string) {
    |s| == 32 && forall i :: 0 <= i < |s| ==> s[i] in "0123456789abcdef"
  }

  /** A digest function that never maps two inputs to the same digest. */
  ghost predicate Injective(hash: string -> string) {
    forall a, b :: hash(a) == hash(b) ==> a == b
  }

  class ChoiceGrader {
    // Fixed at construction and never assigned again.
    // SHA-256 of the UTF-8 encoding, as a hexadecimal digest
    const hash: string -> string
    const salt: string
    const correctHash: string
    // the correct choice; grader.py does not keep it
    ghost const correct: string

    ghost predicate Valid() {
      IsHexToken(salt) && correctHash == HashValue(correct)
    }

    /** `ChoiceGrader(correct)`: draws a fresh salt and stores the salted
        digest of the correct choice. */
    constructor (correct: string, hash: string -> string)
      ensures Valid()
      ensures this.correct == correct && this.hash == hash
    {
      assert IsHexToken("00000000000000000000000000000000");
      var token :| IsHexToken(token);
      this.hash := hash;
      this.salt := token;
      this.correct := correct;
      // self._hash_value(correct), with the salt just drawn
      correctHash := hash(correct + token);
    }

    /** `_hash_value(value)`: the digest of the value followed by the salt.
        Salting keeps a collision-free digest collision-free: no other value
        has the same salted digest. */
    function HashValue(value: string): (d: string)
      ensures Injective(hash) ==> forall w :: hash(w + salt) == d ==> w == value
    {
      SuffixCancels(salt);
      hash(value + salt)
    }

    /** `grade(value)`: true exactly when the salted digest of the candidate is
        the stored one. As a function of constant fields it changes nothing. */
    function Grade(value: string): (r: bool)
      ensures r <==> hash(value + salt) == correctHash
    {
      HashValue(value) == correctHash
    }
  }

  /** The correct choice is always accepted, since the digest is deterministic. */
  lemma GradeAcceptsCorrect(g: ChoiceGrader)
    requires g.Valid()
    ensures g.Grade(g.correct)
  {
  }

  /** Appending the same suffix to two strings cannot make them equal. */
  lemma SuffixCancels(s: string)
    ensures forall a, b :: a + s == b + s ==> a == b
  {
    forall a, b | a + s == b + s
      ensures a == b
    {
      assert |a| == |b|;
      assert a == (a + s)[..|a|] == (b + s)[..|b|] == b;
    }
  }

  /** With a digest free of collisions a ChoiceGrader accepts the correct choice
      and nothing else (comparison is exact: no case folding or trimming). */
  lemma GradeExactForInjectiveHash(g: ChoiceGrader, v: string)
    requires g.Valid() && Injective(g.hash)
    ensures g.Grade(v) <==> v == g.correct
  {
    if g.Grade(v) {
      assert g.hash(v + g.salt) == g.HashValue(g.correct);
    }
  }
}
