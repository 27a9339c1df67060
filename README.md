# cryptograde graders, modelled in Dafny

cryptograde hands a student a grader object that checks an answer without
storing the answer in plain form.

- `RangeGrader` checks that a number lies in a secret interval `[lb, ub]`.
  At construction it draws a random `salt`. It then encrypts the salted
  neighbours `lb + salt ± 1` and `ub + salt ± 1` with an order-preserving
  cipher (OPE). It publishes one random threshold between each pair of
  ciphertexts. `grade(v)` accepts when the ciphertext of `v + salt` lies
  strictly between the two thresholds.
- `ChoiceGrader` stores `H(correct + salt)`. `grade(v)` accepts when
  `H(v + salt)` is that digest.

The model takes the cipher as a function `enc` with one assumption
(`Ope.IsOrderPreserving`): on the plaintext domain `[0, 2^128 - 1]` it is
strictly increasing and lands in `[0, 2^256 - 1]`. Encrypting outside the
domain raises, as pyope does. Each `random.randint(a, b)` is an arbitrary
integer of `[a, b]` (`Randomness.RandInt`), and it raises when `b < a`;
for the two threshold draws the model shows that this cannot happen.
Every field of both graders is a constant: nothing changes after construction. The digest `H` is a function parameter. A Dafny constructor
cannot fail, but `__init__` can raise. So construction is the static method
`RangeGrader.New`, which returns a `Result` and hands the finished state to
the constructor.

What is proved, for every order-preserving cipher and every random draw:

- every candidate `v < lb` or `v > ub` is rejected (`grade` raises or says false);
- every candidate in `[lb + 2, ub - 2]` is accepted;
- for `lb, lb + 1, ub - 1, ub` (inside `[lb, ub]`), some admissible
  thresholds accept and others reject. So the classification is exact;
- the thresholds are in order when `ub - lb >= 2`, and may cross when `ub - lb == 1`.

The salt is drawn from `[0, 2^128 - 1 - (ub - lb)]` (grader.py:32-35). That
range does not keep the encrypted neighbours in the domain. The neighbours
stay in the domain exactly for salts in `[1 - min(lb, ub), 2^128 - 2 - max(lb, ub)]`,
which is `[1 - lb, 2^128 - 2 - ub]` when `lb <= ub` (`EncryptsInDomainExactly`).
Bounds with `ub - lb > 2^128 - 1` always raise at the salt draw itself. For
every other pair of bounds, some salt the code may draw makes construction
raise (`SomeSaltLeavesDomain`):

- with `lb <= 0`, the salt 0 makes `lb - 1` negative;
- with `lb > 0`, the largest salt pushes `ub + salt + 1` past `2^128 - 1`.

For `0 <= ub - lb <= 2^128 - 1`, the salted bounds themselves stay in the
domain for every draw only when `lb == 0` (`SaltedBoundsInDomainIffZeroLower`).
The salt range looks meant
to keep the salted bounds and their neighbours in the domain. The model
follows the code as written, which does not do that.

Two more behaviours of the code that the model follows:

- the code never checks `lb < ub`, so there is no invalid-range error;
- `grade` prints its verdict and returns `None`; here it returns the verdict.

## Model

| member | source | states |
|---|---|---|
| Randomness.RandInt | grader.py:35-52 | `random.randint(a, b)` (the salt and both threshold draws) yields some integer of `[a, b]`; it raises exactly when `b < a` |
| Ope.Encrypt | grader.py:38-42 | encryption succeeds exactly for plaintexts in `[0, 2^128 - 1]` and raises otherwise; with an order-preserving cipher the ciphertext is in `[0, 2^256 - 1]` |
| Ope.EncryptReflectsOrder | grader.py:38-42 | for in-domain plaintexts, ciphertexts compare exactly as the plaintexts do (both `<` and `==`, both directions) |
| RangeGrading.RangeGrader.constructor | grader.py:33-52 | the stored salt, cipher and thresholds form a valid grader: salt in the drawn range, neighbours in the domain, each threshold between the ciphertexts of its bound's neighbours |
| RangeGrading.RangeGrader.New | grader.py:20-52 | it raises the empty-range error exactly when `ub - lb > 2^128 - 1`; otherwise the drawn salt is in `[0, 2^128 - 1 - (ub - lb)]`; it succeeds exactly when all four neighbours `lb + salt ± 1`, `ub + salt ± 1` are in the domain, and otherwise raises the out-of-domain error; on success it returns a fresh valid grader |
| RangeGrading.RangeGrader.Grade | grader.py:54-62 | it raises exactly when `v + salt` is outside `[0, 2^128 - 1]`; otherwise it is true exactly when `lowerBound < E(v + salt) < upperBound` (open interval); the fields are constants, so repeated calls agree |
| RangeGrading.EncryptsInDomainExactly | grader.py:35-50 | the four encrypted neighbours are in the domain exactly when `1 - min(lb, ub) <= salt <= 2^128 - 2 - max(lb, ub)` (for `lb <= ub`: `1 - lb <= salt <= 2^128 - 2 - ub`) |
| RangeGrading.SomeSaltLeavesDomain | grader.py:32-50 | for every `lb, ub` with a non-empty salt range, some salt in that range puts an encrypted neighbour outside the domain |
| RangeGrading.SaltedBoundsInDomainIffZeroLower | grader.py:32-35 | with `0 <= ub - lb <= 2^128 - 1`, every salt in the drawn range keeps `lb + salt` and `ub + salt` in the domain exactly when `lb == 0` |
| RangeGrading.ThresholdsInRange | grader.py:41-52 | both published thresholds lie in `[0, 2^256 - 1]` |
| RangeGrading.ThresholdsOrdered | grader.py:44-52 | if `ub - lb >= 2` then `lowerBound <= upperBound` |
| RangeGrading.ThresholdsMayCross | grader.py:44-52 | if `ub - lb == 1`, some admissible thresholds have `upperBound < lowerBound` |
| RangeGrading.OutsideRejected | grader.py:44-62 | whatever thresholds are drawn, an in-domain candidate `v < lb` or `v > ub` is rejected |
| RangeGrading.CoreAccepted | grader.py:44-62 | whatever thresholds are drawn, a candidate in `[lb + 2, ub - 2]` is in the domain and is accepted |
| RangeGrading.FringeUndecided | grader.py:44-62 | a candidate of `[lb, ub]` within one unit of a bound is accepted by some admissible thresholds and rejected by others |
| RangeGrading.GradeRejectsOutside | grader.py:44-62 | on a valid grader, `grade(v)` for `v < lb` or `v > ub` is never true; it is false whenever it does not raise |
| RangeGrading.GradeAcceptsCore | grader.py:44-62 | on a valid grader, `grade(v)` is true for every `v` in `[lb + 2, ub - 2]` |
| RangeGrading.GradeDefinedNearBounds | grader.py:44-62 | on a valid grader, `grade(v)` does not raise for `lb - 1 <= v <= ub + 1` |
| ChoiceGrading.ChoiceGrader.constructor | grader.py:91-100 | the salt is 32 lower-case hex digits and the stored digest is `H(correct + salt)` |
| ChoiceGrading.ChoiceGrader.HashValue | grader.py:102-114 | the salted digest of a value; with a collision-free `H`, no other value has the same salted digest (the common salt suffix cancels) |
| ChoiceGrading.ChoiceGrader.Grade | grader.py:116-123 | true exactly when `H(value + salt)` equals the stored digest; the fields are constants, so repeated calls agree |
| ChoiceGrading.GradeAcceptsCorrect | grader.py:99-123 | the correct choice is always accepted |
| ChoiceGrading.GradeExactForInjectiveHash | grader.py:102-123 | with a collision-free `H`, `grade(v)` is true exactly when `v` is the correct choice |

## Left out

- Scaling. `int(value / scale)` (grader.py:30-31, 61) is floating-point division truncated toward zero. The model takes the already scaled integers, which is `scale = 1` for integers below 2^53 in magnitude. The `scale` field is not modelled.
- The OPE cipher's internals and key generation (grader.py:6, 37-42). They are one `Cipher` value passed to `RangeGrader.New`, assumed order-preserving. The `key` and `cipher` fields are that one value.
- SHA-256 and UTF-8 encoding (grader.py:112-114). They are one function parameter `H`. Collision freedom is assumed only where a lemma says so. Dafny strings hold no lone surrogates, so Python's encoding error for them does not arise.
- Probabilities. Uniform draws, the chance that a fringe value is accepted, and the chance that two graders share a salt are not modelled. Only the set of possible draws is.
- Printing the verdict (grader.py:64-70, 124-126). `grade` returns the verdict instead.
- `save` and `load` through pickle and files (grader.py:72-79, 128-135). This is I/O and opaque serialisation.
- setup.py, which is packaging only.
