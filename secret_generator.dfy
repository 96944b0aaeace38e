/**
 * generateRandomNumber of numberGenerator.js: a reject-and-resample loop that
 * collects four distinct decimal digits, the first of them non-zero, and
 * joins them into a string. Each `Math.random()` value is supplied by the
 * caller as a `Uniform` real; the source's random supply never ends, the
 * model's sequence can, and then no number is produced.
 */
module SecretGenerator {
  import opened Wrappers
  import opened Random

  type Digit = d: int | 0 <= d <= 9

  /** Number of digits in a secret. */
  const SecretLength: nat := 4

  /** `Math.floor(Math.random() * 9) + 1`: the leading digit, never zero. */
  function FirstDigit(r: Uniform): (d: Digit)
    ensures 1 <= d <= 9
  {
    Scaled(r, 9) + 1
  }

  /** `Math.floor(Math.random() * 10)`: one resampled digit. */
  function DrawDigit(r: Uniform): (d: Digit)
  {
    Scaled(r, 10)
  }

  ghost predicate Distinct(ds: seq<Digit>)
  {
    forall i, j :: 0 <= i < j < |ds| ==> ds[i] != ds[j]
  }

  /** The character that `join` writes for a digit. */
  function DigitChar(d: Digit): (c: char)
    ensures '0' <= c <= '9'
    ensures c as int - '0' as int == d
  {
    ('0' as int + d) as char
  }

  /** `digits.join("")` on an array of single digits. */
  function Join(ds: seq<Digit>): (s: string)
    ensures |s| == |ds|
    ensures forall k :: 0 <= k < |ds| ==> s[k] == DigitChar(ds[k])
  {
    if ds == [] then "" else [DigitChar(ds[0])] + Join(ds[1..])
  }

  /** A valid secret: four decimal digits, pairwise distinct, the first not '0'. */
  ghost predicate IsSecret(s: string)
  {
    && |s| == SecretLength
    && (forall k :: 0 <= k < |s| ==> '0' <= s[k] <= '9')
    && s[0] != '0'
    && (forall i, j :: 0 <= i < j < |s| ==> s[i] != s[j])
  }

  /** One pass of the loop body: a draw is appended only if it is not included yet. */
  function Accept(digits: seq<Digit>, d: Digit): (r: seq<Digit>)
  {
    if d in digits then digits else digits + [d]
  }

  /**
   * The specification of the loop: the digits collected from `digits` by
   * consuming `draws` while fewer than four digits are held.
   */
  function Collect(digits: seq<Digit>, draws: seq<Uniform>): (r: seq<Digit>)
    decreases |draws|
  {
    if |digits| >= SecretLength || draws == [] then digits
    else Collect(Accept(digits, DrawDigit(draws[0])), draws[1..])
  }

  /**
   * What generateRandomNumber returns for the leading draw `first` and the
   * later draws `draws`, or None if the draws run out first.
   */
  function Generated(first: Uniform, draws: seq<Uniform>): (r: Option<string>)
  {
    var digits := Collect([FirstDigit(first)], draws);
    if |digits| == SecretLength then Some(Join(digits)) else None
  }

  /** The loop: `while (digits.length < 4) { … }` and then `digits.join("")`. */
  method GenerateRandomNumber(first: Uniform, draws: seq<Uniform>) returns (number: Option<string>)
    ensures number == Generated(first, draws)
    ensures number.Some? ==> IsSecret(number.value)
  {
    var digits: seq<Digit> := [FirstDigit(first)];
    var i := 0;
    while |digits| < SecretLength && i < |draws|
      invariant 0 <= i <= |draws|
      invariant 1 <= |digits| <= SecretLength
      invariant 1 <= digits[0] <= 9
      invariant Distinct(digits)
      invariant Collect(digits, draws[i..]) == Collect([FirstDigit(first)], draws)
    {
      assert draws[i..][1..] == draws[i + 1..];
      var newDigit := DrawDigit(draws[i]);
      if newDigit !in digits {
        digits := digits + [newDigit];
      }
      i := i + 1;
    }
    if |digits| == SecretLength {
      number := Some(Join(digits));
    } else {
      number := None;
    }
    assert i < |draws| ==> |digits| == SecretLength;
  }

  /** Every pass of the loop keeps the digits distinct and, below four, adds at most one. */
  lemma AcceptStep(digits: seq<Digit>, d: Digit)
    requires Distinct(digits)
    ensures var r := Accept(digits, d);
      && Distinct(r)
      && (r == digits || r == digits + [d])
      && (r == digits <==> d in digits)
      && d in r
  {
  }

  /**
   * What the collected digits are: the starting digits followed by digits
   * drawn, distinct, at most four, and if fewer than four then every draw
   * was a repeat of a digit already held.
   */
  lemma {:induction false} CollectSpec(digits: seq<Digit>, draws: seq<Uniform>)
    requires Distinct(digits) && |digits| <= SecretLength
    ensures var r := Collect(digits, draws);
      && Distinct(r)
      && |digits| <= |r| <= SecretLength
      && r[..|digits|] == digits
      && (forall k :: |digits| <= k < |r| ==> exists j :: 0 <= j < |draws| && r[k] == DrawDigit(draws[j]))
      && (|r| < SecretLength ==> forall j :: 0 <= j < |draws| ==> DrawDigit(draws[j]) in r)
    decreases |draws|
  {
    if |digits| >= SecretLength || draws == [] {
    } else {
      var a := Accept(digits, DrawDigit(draws[0]));
      AcceptStep(digits, DrawDigit(draws[0]));
      CollectSpec(a, draws[1..]);
      var r := Collect(a, draws[1..]);
      assert r[..|a|] == a;
      assert a[..|digits|] == digits;
      assert r[..|digits|] == r[..|a|][..|digits|];
      forall k | |digits| <= k < |r|
        ensures exists j :: 0 <= j < |draws| && r[k] == DrawDigit(draws[j])
      {
        if k < |a| {
          assert r[k] == a[k] == DrawDigit(draws[0]);
        } else {
          var j :| 0 <= j < |draws[1..]| && r[k] == DrawDigit(draws[1..][j]);
          assert r[k] == DrawDigit(draws[j + 1]);
        }
      }
      if |r| < SecretLength {
        forall j | 0 <= j < |draws| ensures DrawDigit(draws[j]) in r {
          if j == 0 {
            assert DrawDigit(draws[0]) in a;
            assert DrawDigit(draws[0]) in r[..|a|];
          } else {
            assert DrawDigit(draws[1..][j - 1]) in r;
          }
        }
      }
    }
  }

  /** A secret produced by the generator is always valid. */
  lemma GeneratedIsSecret(first: Uniform, draws: seq<Uniform>)
    ensures Generated(first, draws).Some? ==> IsSecret(Generated(first, draws).value)
  {
    CollectSpec([FirstDigit(first)], draws);
  }

  /** The set of digits occurring in `ds`; it has no more elements than `ds` has entries. */
  function DigitSet(ds: seq<Digit>): (r: set<Digit>)
    ensures forall x :: x in r <==> x in ds
    ensures |r| <= |ds|
  {
    if ds == [] then {}
    else
      var rest := DigitSet(ds[1..]);
      if ds[0] in rest then rest else rest + {ds[0]}
  }

  /**
   * The loop ends with a number as soon as three of the draws give digits
   * different from each other and from the leading digit (that is, once the
   * draws have produced four different digits): the source's loop runs until
   * it has them.
   */
  lemma DrawsSuffice(first: Uniform, draws: seq<Uniform>, i: nat, j: nat, k: nat)
    requires i < |draws| && j < |draws| && k < |draws|
    requires Distinct([FirstDigit(first), DrawDigit(draws[i]), DrawDigit(draws[j]), DrawDigit(draws[k])])
    ensures Generated(first, draws).Some?
  {
    var a, b, c, d := FirstDigit(first), DrawDigit(draws[i]), DrawDigit(draws[j]), DrawDigit(draws[k]);
    var ds := [a, b, c, d];
    assert ds[0] != ds[1] && ds[0] != ds[2] && ds[0] != ds[3];
    assert ds[1] != ds[2] && ds[1] != ds[3] && ds[2] != ds[3];
    FourDistinct(a, b, c, d);
    var r := Collect([a], draws);
    CollectSpec([a], draws);
    if |r| < SecretLength {
      assert r[..1] == [a];
      assert r[0] == a;
      assert {a, b, c, d} <= DigitSet(r);
      SubsetCardinality({a, b, c, d}, DigitSet(r));
      assert false;
    }
  }

  lemma FourDistinct(a: Digit, b: Digit, c: Digit, d: Digit)
    requires a != b && a != c && a != d && b != c && b != d && c != d
    ensures |{a, b, c, d}| == 4
  {
    assert {a, b, c, d} == {a, b, c} + {d};
    assert {a, b, c} == {a, b} + {c};
  }

  lemma SubsetCardinality(a: set<Digit>, b: set<Digit>)
    requires a <= b
    ensures |a| <= |b|
  {
    assert b == a + (b - a);
  }
}
