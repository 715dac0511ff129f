/** The Russian plural-form selector `decl` of main.py: picks one of three
    titles (one / few / many) for an integer count. */
module Plural {
  import opened Wrappers

  /** Positions of the three forms in the title list. */
  const One: nat := 0
  const Few: nat := 1
  const Many: nat := 2

  /** The lookup table of `decl`, indexed by the last decimal digit 0..5. */
  const Cases: seq<nat> := [Many, One, Few, Few, Few, Many]

  /** The index `decl` computes before it subscripts the title list.
      Python's `%` floors and Dafny's is Euclidean; for the positive divisors
      10 and 100 both give the same remainder, so this is total on all ints. */
  function DeclIndex(n: int): (idx: nat)
    ensures idx in Cases
  {
    if 4 < n % 100 < 20 then Many
    else if n % 10 < 5 then Cases[n % 10]
    else Cases[5]
  }

  /** The plural rule stated the usual way: 11..19 take the many-form;
      otherwise a last digit 1 takes the one-form, 2..4 the few-form and
      everything else the many-form. */
  function RuleIndex(n: int): nat
  {
    var last := n % 10;
    if 11 <= n % 100 <= 19 then Many
    else if last == 1 then One
    else if 2 <= last <= 4 then Few
    else Many
  }

  /** The table-driven index agrees with the plain rule on every integer:
      for `n % 100` in 5..10 both give the many-form. */
  lemma DeclIndexMatchesRule(n: int)
    ensures DeclIndex(n) == RuleIndex(n)
  {
  }

  /** `decl(number, titles)`: the chosen title, or `None` where Python's
      `titles[idx]` would raise `IndexError` (a list shorter than the index). */
  function Decl<T>(n: int, titles: seq<T>): (r: Option<T>)
    ensures r.Some? <==> RuleIndex(n) < |titles|
    ensures r.Some? ==> r.value == titles[RuleIndex(n)]
    ensures |titles| >= 3 ==> r.Some? && r.value in titles[..3]
  {
    DeclIndexMatchesRule(n);
    var idx := DeclIndex(n);
    if idx < |titles| then Some(titles[idx]) else None
  }

  /** The three forms as `decl` resolves them for a three-title list:
      the teens take the many-form, then the last digit decides. */
  lemma DeclForms<T>(n: int, titles: seq<T>)
    requires |titles| == 3
    ensures 5 <= n % 100 <= 19 ==> Decl(n, titles) == Some(titles[Many])
    ensures !(5 <= n % 100 <= 19) && n % 10 == 1 ==> Decl(n, titles) == Some(titles[One])
    ensures !(5 <= n % 100 <= 19) && 2 <= n % 10 <= 4 ==> Decl(n, titles) == Some(titles[Few])
    ensures n % 10 == 0 || 5 <= n % 10 ==> Decl(n, titles) == Some(titles[Many])
  {
  }

  /** Worked values: 1 and 21 take the one-form, 2 the few-form, and
      5, 11..14 and 25 the many-form. */
  lemma DeclExamples<T>(titles: seq<T>)
    requires |titles| == 3
    ensures Decl(1, titles) == Some(titles[0])
    ensures Decl(2, titles) == Some(titles[1])
    ensures Decl(5, titles) == Some(titles[2])
    ensures Decl(11, titles) == Some(titles[2])
    ensures Decl(12, titles) == Some(titles[2])
    ensures Decl(13, titles) == Some(titles[2])
    ensures Decl(14, titles) == Some(titles[2])
    ensures Decl(21, titles) == Some(titles[0])
    ensures Decl(25, titles) == Some(titles[2])
  {
  }
}
