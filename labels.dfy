/** Component names `CP1`, `CP2`, ... as the analysis writes them with
    `f"CP{i+1}"`, and the decimal notation they are built from. */
module Labels {
  import opened Wrappers

  predicate IsDigit(c: char)
  {
    '0' <= c <= '9'
  }

  predicate AllDigits(s: string)
  {
    forall i :: 0 <= i < |s| ==> IsDigit(s[i])
  }

  function DigitChar(d: nat): (c: char)
    requires d < 10
    ensures IsDigit(c) && c as int - '0' as int == d
  {
    ('0' as int + d) as char
  }

  /** Python's `str(n)` for a natural number: decimal, no leading zero. */
  function NatToString(n: nat): (s: string)
    ensures |s| >= 1 && AllDigits(s)
    ensures s[0] == '0' ==> n == 0
    decreases n
  {
    if n < 10 then [DigitChar(n)] else NatToString(n / 10) + [DigitChar(n % 10)]
  }

  /** Reads a string of decimal digits back as a number. */
  function ParseNat(s: string): nat
    requires AllDigits(s)
  {
    if s == [] then 0
    else ParseNat(s[..|s| - 1]) * 10 + (s[|s| - 1] as int - '0' as int)
  }

  lemma {:induction false} NatToStringRoundTrip(n: nat)
    ensures ParseNat(NatToString(n)) == n
    decreases n
  {
    if n >= 10 {
      var s := NatToString(n);
      assert s[..|s| - 1] == NatToString(n / 10);
      NatToStringRoundTrip(n / 10);
    }
  }

  /** Name of the component at 0-based position k: `CP{k+1}`. */
  function ComponentLabel(k: nat): (name: string)
    ensures |name| >= 3 && name[..2] == "CP" && AllDigits(name[2..]) && name[2] != '0'
  {
    "CP" + NatToString(k + 1)
  }

  /** The inverse of ComponentLabel: the 0-based position a name denotes, if any. */
  function ComponentIndex(name: string): Option<nat>
  {
    if |name| > 2 && name[..2] == "CP" && AllDigits(name[2..]) && ParseNat(name[2..]) >= 1
    then Some(ParseNat(name[2..]) - 1)
    else None
  }

  lemma ComponentLabelRoundTrip(k: nat)
    ensures ComponentIndex(ComponentLabel(k)) == Some(k)
  {
    var name := ComponentLabel(k);
    assert name[2..] == NatToString(k + 1);
    assert name[..2] == "CP";
    NatToStringRoundTrip(k + 1);
  }

  /** Distinct positions get distinct names, so a table never has two
      columns called alike. */
  lemma ComponentLabelInjective(a: nat, b: nat)
    requires ComponentLabel(a) == ComponentLabel(b)
    ensures a == b
  {
    ComponentLabelRoundTrip(a);
    ComponentLabelRoundTrip(b);
  }

  /** The column names of an m-component table, in order. */
  function ComponentLabels(m: nat): (names: seq<string>)
    ensures |names| == m
    ensures forall k :: 0 <= k < m ==> names[k] == ComponentLabel(k)
  {
    seq(m, k requires 0 <= k < m => ComponentLabel(k))
  }

  /** The names of the first i + 1 components are those of the first i
      plus a new one. */
  lemma LabelPrefixStep(i: nat)
    ensures (set k | 0 <= k < i + 1 :: ComponentLabel(k))
            == (set k | 0 <= k < i :: ComponentLabel(k)) + {ComponentLabel(i)}
    ensures ComponentLabel(i) !in (set k | 0 <= k < i :: ComponentLabel(k))
  {
    forall k | 0 <= k < i
      ensures ComponentLabel(k) != ComponentLabel(i)
    {
      if ComponentLabel(k) == ComponentLabel(i) {
        ComponentLabelInjective(k, i);
      }
    }
  }

  /** The first i entries of xs, keyed by the names CP1..CPi. */
  function KeyedByComponent<T>(xs: seq<T>, i: nat): map<string, T>
    requires i <= |xs|
  {
    if i == 0 then map[] else KeyedByComponent(xs, i - 1)[ComponentLabel(i - 1) := xs[i - 1]]
  }

  /** Its keys are exactly CP1..CPi and each names its own entry. */
  lemma {:induction false} KeyedByComponentFacts<T>(xs: seq<T>, i: nat)
    requires i <= |xs|
    ensures KeyedByComponent(xs, i).Keys == set k | 0 <= k < i :: ComponentLabel(k)
    ensures forall k :: 0 <= k < i ==> KeyedByComponent(xs, i)[ComponentLabel(k)] == xs[k]
  {
    if i > 0 {
      KeyedByComponentFacts(xs, i - 1);
      LabelPrefixStep(i - 1);
    }
  }
}
