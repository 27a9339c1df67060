/** The order-preserving cipher the range grader is built on (pyope's `OPE`),
    taken as a black box with the contract RangeGrader relies on. */
module Ope {
  import opened Failures

  /** Largest plaintext: RangeGrader fixes the input range to [0, 2^128 - 1]. */
  const DomainMax: int := 0xffff_ffff_ffff_ffff_ffff_ffff_ffff_ffff

  /** Largest ciphertext: RangeGrader fixes the output range to [0, 2^256 - 1]. */
  const RangeMax: int := 0xffff_ffff_ffff_ffff_ffff_ffff_ffff_ffff_ffff_ffff_ffff_ffff_ffff_ffff_ffff_ffff

  predicate InDomain(x: int) { 0 <= x <= DomainMax }

  predicate InRange(y: int) { 0 <= y <= RangeMax }

  /** A cipher instance: the encryption function that a freshly generated key
      determines. Only its values on the domain are ever used. */
  datatype Cipher = Cipher(enc: int -> int)

  /** What RangeGrader assumes of the cipher: plaintexts of the domain go to
      ciphertexts of the range, and strictly larger plaintexts to strictly
      larger ciphertexts. */
  ghost predicate IsOrderPreserving(c: Cipher) {
    (forall a :: InDomain(a) ==> InRange(c.enc(a))) &&
    (forall a, b :: InDomain(a) && InDomain(b) && a < b ==> c.enc(a) < c.enc(b))
  }

  /** `cipher.encrypt(x)`: refuses a plaintext outside the input range. */
  function Encrypt(c: Cipher, x: int): (r: Result<int>)
    ensures r.Ok? <==> InDomain(x)
    ensures r.Err? ==> r.error == OutOfDomain
    ensures r.Ok? && IsOrderPreserving(c) ==> InRange(r.value)
  {
    if InDomain(x) then Ok(c.enc(x)) else Err(OutOfDomain)
  }

  /** Encryption both preserves and reflects the order of plaintexts, so a
      comparison of ciphertexts decides the comparison of plaintexts. */
  lemma EncryptReflectsOrder(c: Cipher, a: int, b: int)
    requires IsOrderPreserving(c)
    requires Encrypt(c, a).Ok? && Encrypt(c, b).Ok?
    ensures a < b <==> Encrypt(c, a).value < Encrypt(c, b).value
    ensures a == b <==> Encrypt(c, a).value == Encrypt(c, b).value
  {
    if b < a {
      assert c.enc(b) < c.enc(a);
    }
  }
}
