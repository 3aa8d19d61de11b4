# arithgen in Dafny

arithgen generates arithmetic exercises. It draws a random target
fraction, then builds a random expression tree over `+ - * /` from small
integers that evaluates to exactly that fraction. It prints the tree in infix
notation, with minimal parentheses, or in reverse Polish notation.

This project models the core of the program and proves properties of it:

- the expression tree: evaluation, the two renderings and named nodes
  (`expr.dfy`, with a stack-machine reading of the RPN in `rpn.dfy` and a
  lexer and precedence parser reading the infix text back in `infix.dfy`);
- the number-theory helpers `isprime`, `nextprime`, `prevprime` and
  `prime` (`ntheory.dfy`, on top of the divisibility and prime facts in
  `arith.dfy`);
- the weighted choice, the generator of numbers with prime factors from a
  fixed pool, and the expression synthesiser (`generator.dfy`);
- the strict answer parser and the recursive configuration merge of the
  quiz front end (`quiz.dfy`).

Supporting modules:

- `rational.dfy` models Python's `fractions.Fraction` in lowest terms.
- `decimal.dfy` models `str(int)` and reading decimal digits.
- `wrappers.dfy` holds `Option` and `Result`. A `Result` stands for an
  operation that raises `ValueError` in arithgen.

Every random draw is a nondeterministic choice (`:|`), so each contract
holds for every outcome of the draws. `weighted_choice` takes the drawn
number as a parameter. Exact rationals are Dafny `real`s.

The headline theorem is `Generator.Generate`: a generated tree evaluates to
exactly the returned fraction. It never divides by zero, carries no names,
and all its leaves are integers between 1 and `10 * 2 ** difficulty`.

## Model

| member | source | states |
|---|---|---|
| ExprTree.Apply | arithgen/expr.py:104-143 | an operator application has no value exactly when it is a division by zero |
| ExprTree.Format | arithgen/expr.py:20-27 | a named node formats as its name; otherwise `''` gives infix, `'rpn'` gives RPN, and any other spec is an error exactly then |
| ExprTree.IntegerRendering | arithgen/expr.py:49-56 | an integer leaf renders as its decimal text in both notations and evaluates to its own value |
| ExprTree.EvaluatesIffDefined | arithgen/expr.py:142-143 | evaluation succeeds exactly when no divisor in the tree evaluates to zero |
| ExprTree.NamedOperand | arithgen/expr.py:20-22 | a named left operand appears as its name, wrapped by the parenthesis rule, at the start of the parent's infix text and its name starts the parent's RPN text; a named right operand appears the same way at the end of the infix text, and its name followed by the operator ends the RPN text |
| ExprTree.ReversePolishHasNoParens | arithgen/expr.py:84-89 | the RPN text of a tree without names contains no parenthesis |
| ExprTree.RegroupRight | arithgen/expr.py:76-81 | regrouping `a + (b + c)` or `a * (b * c)` keeps the value, which is why same-level right operands of `+` and `*` need no parentheses |
| ExprTree.SubtractionNeedsParens | arithgen/expr.py:111-112 | `1 - (1 + 1)` and `(1 - 1) + 1` differ, so `-` must wrap a same-level right operand |
| ExprTree.DivisionNeedsParens | arithgen/expr.py:136-137 | `1 / (2 * 2)` and `(1 / 2) * 2` differ, so `/` must wrap a same-level right operand |
| ExprTree.EvaluationExamples | tests/test_expr.py:6-48 | 9, 5 + 6, 4 - 7, 3 * 8, 8 / 6 and the compound tree evaluate to 9, 11, -3, 24, 4/3 and 66/289 |
| ExprTree.InfixExample | tests/test_expr.py:51-72 | the sample tree renders as `3 * 4 / (2 * 6) - 3 / (5 + 6) + (4 + 2 - (2 - 1)) * 6` |
| ExprTree.ReversePolishExample | tests/test_expr.py:75-96 | the sample tree renders as `3 4 * 2 6 * / 3 5 6 + / - 4 2 + 2 1 - - 6 * +` |
| Rpn.ReversePolishIsJoinedPostfix | arithgen/expr.py:84-89 | the RPN text is the postfix token sequence (left, right, operator) joined by single spaces |
| Rpn.ExecPostfix | arithgen/expr.py:84-89 | running a tree's tokens on a stack pushes the tree's value, or stops exactly when the tree divides by zero |
| Rpn.ReversePolishComputesValue | arithgen/expr.py:84-89 | the RPN of a tree without names, run on an empty stack, leaves exactly the value of `evaluate()` |
| Infix.TextIsLayout | arithgen/expr.py:71-82 | the infix text of a tree without names is its token sequence (operands, operators and the parentheses the renderer adds) joined by single spaces, with no space just inside a parenthesis |
| Infix.LexLayout | arithgen/expr.py:71-82 | lexing such a joined token sequence gives back exactly the tokens, negative literals included |
| Infix.FactorReading | arithgen/expr.py:71-82 | a leaf, or a parenthesised tree, reads as one factor with the tree's value |
| Infix.TermReading | arithgen/expr.py:71-82 | the tokens of a tree in a term position read to the tree's value, and parsing continues with the rest of the term |
| Infix.ExprReading | arithgen/expr.py:71-82 | the tokens of a whole tree read to the tree's value, and parsing continues with the rest of the sum |
| Infix.TokensRead | arithgen/expr.py:71-82 | the precedence parser consumes a tree's tokens completely and yields the tree's value |
| Infix.InfixReadBack | arithgen/expr.py:71-82 | the infix text of a tree without names, read back with `*` and `/` binding tighter than `+` and `-` and left grouping, gives exactly `evaluate()`'s value (none when it divides by zero), so the omitted parentheses are never needed |
| Decimal.NatToString | arithgen/expr.py:49-50 | `str(n)` of a natural number is canonical: digits only, with no leading zero |
| Decimal.DigitsValueOfNatToString | arithgen/expr.py:49-50 | reading back the decimal text of `n` gives `n` |
| Decimal.NatToStringOfDigitsValue | arithgen/quiz.py:99-101 | a canonical digit string is the decimal text of its value |
| Decimal.CanonicalInjective | arithgen/quiz.py:99-101 | two canonical digit strings with the same value are the same string |
| NTheory.IsPrimeTrial | arithgen/ntheory.py:10-16 | the trial-division test holds exactly when `n` is prime |
| NTheory.OddTrialsPassMeaning | arithgen/ntheory.py:16 | the odd trials up to the square root pass exactly when no odd candidate at or below the square root divides `n` |
| NTheory.IsPrimeTrialOdd | arithgen/ntheory.py:16 | for odd `n >= 3` the odd trials up to the square root decide primality |
| NTheory.MinDivisorOfComposite | arithgen/ntheory.py:16 | a composite number's least divisor is at most its square root, so stopping the trials there is sound |
| NTheory.IsPrimeExamples | tests/test_ntheory.py:6-14 | -5, 0, 1 and 561 are not prime; 2, 3, 67 and 191 are |
| NTheory.PrimeAbove | arithgen/ntheory.py:26-28 | there is a prime above every number, so the search loop of `nextprime` ends |
| NTheory.NextPrimeOf | arithgen/ntheory.py:26-29 | names the least prime strictly above `n` |
| NTheory.NextPrime | arithgen/ntheory.py:19-29 | returns the `ith` prime above `n` (the least one when `ith <= 1`), which is prime and above `n` |
| NTheory.NextPrimeExamples | tests/test_ntheory.py:17-21 | next primes after 10, 123, 89 and 1 are 11, 127, 97 and 2 |
| NTheory.IthPrimeExample | tests/test_ntheory.py:22 | the 4th prime above 50 is 67 |
| NTheory.SecondPrimeExample | tests/test_ntheory.py:23 | the 2nd prime above 41 is 47 |
| NTheory.PrevPrime | arithgen/ntheory.py:32-39 | an error exactly when `n < 3`; otherwise the largest prime below `n` |
| NTheory.PrevPrimeExamples | tests/test_ntheory.py:26-29 | the largest primes below 15, 83 and 3 are 13, 79 and 2 |
| NTheory.Prime | arithgen/ntheory.py:42-46 | an error exactly when `nth < 1`; otherwise the `nth` prime |
| NTheory.NthPrimeStrictlyIncreasing | arithgen/ntheory.py:42-46 | `prime` is strictly increasing in `nth`, so it lists each prime at most once |
| NTheory.EveryPrimeIsNth | arithgen/ntheory.py:42-46 | every prime is `prime(k)` for some `k >= 1` |
| NTheory.NthPrimeTable | tests/test_ntheory.py:36-38 | the first 27 values of `prime` are the first 27 primes |
| NTheory.NthPrimeExamples | tests/test_ntheory.py:36-38 | `prime(1) == 2` and `prime(27) == 103` |
| Rational.Make | arithgen/generator.py:141 | `Fraction(n, d)` is in lowest terms with a positive denominator and has the value `n / d` |
| Rational.Mul | arithgen/generator.py:142-143 | the product of two fractions is in lowest terms and has the product value |
| Rational.Reciprocal | arithgen/generator.py:196 | `1 / f` is in lowest terms and has the reciprocal value |
| Rational.ValueInjective | arithgen/quiz.py:107-108 | two fractions in lowest terms with the same value are equal |
| Rational.ReducedBounds | arithgen/generator.py:170-171 | reducing `a / b` for positive `a`, `b` gives a numerator at most `a` and a denominator at most `b` |
| Generator.WeightedChoice | arithgen/generator.py:17-30 | for a drawn `r` in `[0, total]` the scan returns, with the first element at which the running sum reaches `r` |
| Generator.ChoiceHasPositiveWeight | arithgen/generator.py:23-29 | an element with zero weight comes out only when it is first and `r` is 0 |
| Generator.PositiveWeightIsChosen | arithgen/generator.py:23-29 | every element with positive weight comes out for some admissible `r` |
| Generator.NumPrimeGenerator.IsValid | arithgen/generator.py:39-47 | true exactly when `x` is positive, within the bound, and has only pool primes as prime factors |
| Generator.NumPrimeGenerator.AllDividedOut | arithgen/generator.py:43-47 | once every pool prime is divided out, what is left is 1 exactly when `x` has no prime factor outside the pool |
| Generator.IsValidExamples | tests/test_generator.py:10-21 | for the pool {2, 5, 7, 13}: 1, 7, 52 and 384475 pass; -1, 0, 30 and 176 fail; 70 passes below 100 and fails below 50 |
| Generator.NumPrimeGenerator.GenPairwiseCoprimeNumbers | arithgen/generator.py:57-78 | one value per bound; each value has only pool prime factors and stays within its bound unless it is 1; the values are pairwise coprime; the loop ends |
| Generator.SlackShrinks | arithgen/generator.py:74-77 | multiplying a value up within its bound lowers the total room left, the measure that ends the loop |
| Generator.NumPrimeGenerator.TiedSlotsCoprime | arithgen/generator.py:65-73 | when each prime feeds only the slot it was first tied to, the slots are pool-smooth and pairwise coprime |
| Generator.NumPrimeGenerator.GenNumber | arithgen/generator.py:49-51 | returns a pool-smooth number within the bound, or 1 |
| Generator.NumPrimeGenerator.GenCoprimeNumbers | arithgen/generator.py:53-55 | returns two coprime pool-smooth numbers, each within its bound or 1 |
| Generator.NumPrimeGenerator.GenNumbersWithSum | arithgen/generator.py:80-92 | a returned pair sums to `result` and both numbers pass `is_valid` with the bound; no trials give no pair |
| Generator.NumPrimeGenerator.GenNumbersWithDifference | arithgen/generator.py:94-105 | a returned pair differs by `result` and both numbers pass `is_valid` with the bound; no trials give no pair |
| Generator.ExprGenerator.constructor | arithgen/generator.py:109-112 | sets the difficulty, no number generator yet; `maxval` is `10 * 2 ** difficulty` |
| Generator.ExprGenerator.GenPrimes | arithgen/generator.py:114-119 | the pool holds exactly `2 + int(1.5 * difficulty)` primes, including 2, each `prime(k)` for an index below `int(1.5 * primecnt)` |
| Generator.PrimesAt | arithgen/generator.py:118 | `[prime(i) for i in prime_ind]` over distinct indices gives as many distinct primes, each `prime(k)` for an index in range |
| Generator.EndingProb | arithgen/generator.py:129-134 | a probability between 0 and 0.9 that is 0 exactly below depth `difficulty // 3 + 1` |
| Generator.EndingProbMonotone | arithgen/generator.py:129-134 | going deeper never lowers the chance of ending |
| Generator.EndingProbTable | arithgen/generator.py:122-128 | agrees with the table in the comment for difficulties 1 to 5 and depths 0 to 4 |
| Generator.ExprGenerator.GenDivisionOperand | arithgen/generator.py:136-144 | both operands are positive fractions within `maxval` and their quotient is `result` |
| Generator.ExprGenerator.ScaledOperand | arithgen/generator.py:139-143 | scaling a part of `result` by the drawn fraction keeps it within `maxval`, since `maxval // max(num, den) >= 1` |
| Generator.ExprGenerator.GenFraction | arithgen/generator.py:155-159 | the target is a positive fraction in lowest terms within `maxval` |
| Generator.ExprGenerator.GenAdditionWithResult | arithgen/generator.py:161-175 | a returned tree is an addition that evaluates to `result`, with no names and leaves in `[1, maxval]` |
| Generator.ExprGenerator.AdditionProduces | arithgen/generator.py:170-175 | trees for `a / den` and `b / den` with `a + b == num` add up to a tree for `num / den` |
| Generator.ExprGenerator.GenSubtractionWithResult | arithgen/generator.py:177-191 | a returned tree is a subtraction that evaluates to `result`, with no names and leaves in `[1, maxval]` |
| Generator.ExprGenerator.SubtractionProduces | arithgen/generator.py:186-191 | trees for `a / den` and `b / den` with `a - b == num` subtract to a tree for `num / den` |
| Generator.ExprGenerator.GenMultiplicationWithResult | arithgen/generator.py:193-200 | a returned tree is a multiplication that evaluates to `result`, with no names and leaves in `[1, maxval]` |
| Generator.ExprGenerator.GenDivisionWithResult | arithgen/generator.py:202-208 | a returned tree is a division that evaluates to `result`, with no names and leaves in `[1, maxval]` |
| Generator.Terminal | arithgen/generator.py:215-220 | the leaf is `Integer(num)` exactly when the denominator is 1, otherwise `num / den`; either way it evaluates to `result` |
| Generator.ExprGenerator.GenExprWithResult | arithgen/generator.py:210-226 | a returned tree evaluates exactly to `result`, carries no names, and has its leaves in `[1, maxval]` |
| Generator.ExprGenerator.GenExpr | arithgen/generator.py:228-232 | the result is a positive fraction within `maxval`, and a returned tree evaluates exactly to it |
| Generator.Generate | arithgen/generator.py:235-238 | a returned tree evaluates exactly to the returned fraction, never divides by zero, has no names, and its leaves lie in `[1, 10 * 2 ** difficulty]` |
| Quiz.ParseFractionStrict | arithgen/quiz.py:96-109 | an accepted answer is a fraction in lowest terms that is never negative; a rejected one gives a format error |
| Quiz.ParseAcceptsStrictAnswers | arithgen/quiz.py:96-109 | accepted exactly: `0`, a numeral with no leading zero, or `a/b` of such numerals with `gcd(a, b) == 1` and `b > 1` |
| Quiz.PrintParsed | arithgen/quiz.py:96-109 | printing an accepted answer's value as `str(Fraction)` gives back the answer |
| Quiz.ParsePrinted | arithgen/quiz.py:96-109 | every non-negative fraction in lowest terms is accepted in its printed form and parses back to itself |
| Quiz.ParseInjective | arithgen/quiz.py:52-55 | distinct accepted strings have distinct values |
| Quiz.ParseExamples | tests/test_quiz.py:9-10 | `0` and `12` parse to 0 and 12 |
| Quiz.ParseFractionExample | tests/test_quiz.py:11 | `2/13` parses to 2/13 |
| Quiz.ParseRejectsNumerals | tests/test_quiz.py:12-19 | `-1`, `0123`, `0x123` and `0001` are rejected |
| Quiz.ParseRejectsFractions | tests/test_quiz.py:20-29 | `-1/123`, `0/123` and `1/0` are rejected |
| Quiz.RejectsReducible | tests/test_quiz.py:24-27 | `4/6` and `5/1` are rejected |
| Quiz.UpdateRecursive | arithgen/quiz.py:16-23 | the loop over the entries of the update produces the merged dictionary |
| Quiz.MergeKeepsOriginal | arithgen/quiz.py:18-23 | a key that the update does not mention keeps its original value |
| Quiz.MergeAppliesUpdate | arithgen/quiz.py:18-23 | a non-mapping value overwrites; a mapping is merged into the original mapping, or into an empty one when the key was absent |
| Quiz.MergeKeys | arithgen/quiz.py:18-23 | the merged dictionary has the keys of both dictionaries |
| Quiz.MergeIntoEmpty | arithgen/quiz.py:20-21 | merging into an empty dictionary copies the update |

## Left out

- Randomness. The distributions of `random.uniform`, `random.choice`, `random.sample` and `random.random` are not modelled. Each draw is a nondeterministic choice over the values the call can return.
- Generator.NumPrimeGenerator.GenPairwiseCoprimeNumbers: the `log(p) / p` weights are not modelled. Any prime still in `pr_choices` may be drawn.
- Generator.NumPrimeGenerator.GenPairwiseCoprimeNumbers: requires a non-empty list of bounds, or an empty pool. Otherwise the source raises `IndexError` when it falls back to slot 0.
- Generator.WeightedChoice: the weights and the running sum are exact reals, not floats.
- Generator.WeightedChoice: the drawn number is a parameter, restricted to `[0, total]` as `random.uniform(0, total)` returns.
- Generator.NumPrimeGenerator.IsValid: `t /= i` is exact integer division. In the source it turns `t` into a float, which is exact while the values stay below 2**53.
- Generator.NumPrimeGenerator.IsValid: requires the pool to hold primes. The only caller builds it from `prime(i)`. A pool containing 1 would make the source loop forever.
- Generator.NumPrimeGenerator.GenNumbersWithSum: states "no trials give no pair". It does not state that `None` comes only after `trials` failed attempts, because the failed draws are not named in the model.
- Generator.NumPrimeGenerator.GenNumbersWithDifference: the same as for the sum.
- NTheory.IsPrimeTrial: the trial bound `int(math.sqrt(n))` is the exact condition `i * i <= n`.
- Generator.ExprGenerator.GenPrimes: `int(1.5 * k)` is `3 * k / 2`, which is the same value for the non-negative `k` that occur.
- Generator.EndingProb: the probabilities are exact constants. The float comparison `random() < p` is a comparison of reals.
- Generator.ExprGenerator.GenExprWithResult: a `fuel` bound limits both the retries of the `while ans is None` loop and the depth of the recursion. Termination of the source is only probabilistic.
- Generator.ExprGenerator.GenExprWithResult: when the fuel runs out the model returns none. The source never returns `None`, so the "no tree" outcomes here are an artefact of the bound; every returned tree is correct.
- Generator.ExprGenerator.GenAdditionWithResult: takes the same `fuel` bound and may return none when it runs out, an artefact of the bound the source does not have; every returned tree is correct.
- Generator.ExprGenerator.GenSubtractionWithResult: takes the same `fuel` bound and may return none when it runs out, an artefact of the bound the source does not have; every returned tree is correct.
- Generator.ExprGenerator.GenMultiplicationWithResult: takes the same `fuel` bound and may return none when it runs out, an artefact of the bound the source does not have; every returned tree is correct.
- Generator.ExprGenerator.GenDivisionWithResult: takes the same `fuel` bound and may return none when it runs out, an artefact of the bound the source does not have; every returned tree is correct.
- Generator.ExprGenerator.GenExpr: takes the same `fuel` bound and may return none when it runs out, an artefact of the bound the source does not have; every returned tree is correct.
- Generator.Generate: takes the same `fuel` bound and may return none when it runs out, an artefact of the bound the source does not have; every returned tree is correct.
- Generator.ExprGenerator.constructor: the difficulty is a natural number. With a negative difficulty the source's `2 ** difficulty` is a float.
- Quiz.UpdateRecursive: modelled on values. It returns the merged dictionary instead of updating `orig_dict` in place, so sharing of nested dictionaries is not modelled.
- Quiz.UpdateRecursive: requires that no non-empty mapping meets a non-mapping original value. There the source raises `AttributeError` when a nested mapping calls `.get` on that value, or `TypeError` when a scalar is assigned into it, or, for a list original with integer keys, assigns by index.
- Quiz.UpdateRecursive: non-mapping values are a single `Scalar` kind.
- Quiz.UpdateRecursive: dictionaries are ordered entry lists with distinct keys, as Python keeps them.
- ExprTree.Format: the error message is a fixed text. The source puts the offending format spec into it.
- NTheory.PrevPrime: the error message is a fixed text. The source puts `n` into it.
- Evaluation by zero: `evaluate()` raises `ZeroDivisionError` there. The model returns none instead.
- Not modelled (command-line and configuration I/O):
  - `arithgen/cmdline.py`;
  - `quiz.main`, `get_valid_user_input` and `parse_args`;
  - `parse_config_files`, which reads environment variables, files and YAML;
  - `setup.py`.
- `op_gen_methods` is not a member. The four builders are picked by their operator.
