/** `toCamelCase`, which turns a partial's name into the identifier its
    import is bound to (`icon-bar-chart` becomes `IconBarChart`). */
module Camel {
  import opened Base

  /** A match of `/-(\w)/` starts at `i`. A match consumes a word character,
      never a hyphen, so matches cannot overlap and this local test finds
      exactly the matches of the global replacement. */
  predicate HyphenAt(s: string, i: int) {
    0 <= i && i + 1 < |s| && s[i] == '-' && IsWordChar(s[i + 1])
  }

  /** The number of positions where `HyphenAt` holds, counted one position
      at a time. */
  function HyphenCount(s: string): nat
    decreases |s|
  {
    if |s| < 2 then 0 else (if HyphenAt(s, 0) then 1 else 0) + HyphenCount(s[1..])
  }

  /** `.replace(/-(\w)/g, (_, c) => c.toUpperCase())`, as the left-to-right
      scan the regular expression engine performs. Each match loses its
      hyphen, so the result is one character shorter per match. */
  function CamelTail(s: string): (r: string)
    ensures |r| == |s| - HyphenCount(s)
    decreases |s|
  {
    if |s| == 0 then []
    else if HyphenAt(s, 0) then
      assert !HyphenAt(s[1..], 0);
      [ToUpper(s[1])] + CamelTail(s[2..])
    else [s[0]] + CamelTail(s[1..])
  }

  /** `toCamelCase`: the empty name stays empty; otherwise the first
      character is upper-cased and the rest goes through `CamelTail`. */
  function ToCamelCase(name: string): (r: string)
    ensures name == [] <==> r == []
    ensures name != [] ==> r[0] == ToUpper(name[0])
    ensures name != [] ==> |r| == |name| - HyphenCount(name[1..])
  {
    if name == [] then [] else [ToUpper(name[0])] + CamelTail(name[1..])
  }

  /** `${toCamelCase(partialName)}Template`, the import binding of a partial. */
  function Alias(name: string): string {
    ToCamelCase(name) + "Template"
  }

  /** What position `i` of `s` contributes to the result, looked at alone:
      nothing for the hyphen of a match, the upper-cased character right
      after such a hyphen, the character itself everywhere else. */
  function Contribution(s: string, i: int): string
    requires 0 <= i < |s|
  {
    if HyphenAt(s, i) then []
    else if HyphenAt(s, i - 1) then [ToUpper(s[i])]
    else [s[i]]
  }

  function Contributions(s: string): seq<string> {
    seq(|s|, i requires 0 <= i < |s| => Contribution(s, i))
  }

  function Concat(parts: seq<string>): string
    decreases |parts|
  {
    if parts == [] then [] else parts[0] + Concat(parts[1..])
  }

  /** Dropping the first `d` characters shifts the contributions by `d`,
      provided no match straddles the cut. */
  lemma ContributionsShift(s: string, d: nat)
    requires d <= |s|
    requires d > 0 ==> !HyphenAt(s, d - 1)
    ensures Contributions(s)[d..] == Contributions(s[d..])
  {
    var t := s[d..];
    forall j | 0 <= j < |t|
      ensures Contribution(s, j + d) == Contribution(t, j)
    {
      assert HyphenAt(s, j + d) == HyphenAt(t, j);
      if j > 0 {
        assert HyphenAt(s, j + d - 1) == HyphenAt(t, j - 1);
      }
    }
  }

  /** The scan agrees with the position-by-position statement: every
      character that is neither a match's hyphen nor right after one comes
      out unchanged and in order. */
  lemma {:induction false} CamelTailPointwise(s: string)
    ensures CamelTail(s) == Concat(Contributions(s))
    decreases |s|
  {
    var cs := Contributions(s);
    if |s| == 0 {
    } else if HyphenAt(s, 0) {
      assert !HyphenAt(s, 1);
      ContributionsShift(s, 2);
      CamelTailPointwise(s[2..]);
      assert cs[0] == [];
      assert cs[1] == [ToUpper(s[1])];
      assert cs[1..][1..] == cs[2..];
      assert Concat(cs) == cs[0] + Concat(cs[1..]);
      assert Concat(cs[1..]) == cs[1] + Concat(cs[2..]);
    } else {
      ContributionsShift(s, 1);
      CamelTailPointwise(s[1..]);
      assert cs[0] == [s[0]];
    }
  }

  /** `toCamelCase` spelled out position by position. */
  lemma ToCamelCaseSpec(name: string)
    requires name != []
    ensures ToCamelCase(name) == [ToUpper(name[0])] + Concat(Contributions(name[1..]))
  {
    CamelTailPointwise(name[1..]);
  }

  /** Two different names can share one alias, so two partials may be bound
      to the same import name. */
  lemma AliasNotInjective()
    ensures "a-b" != "aB"
    ensures ToCamelCase("a-b") == ToCamelCase("aB") == "AB"
    ensures Alias("a-b") == Alias("aB")
  {
    assert HyphenAt("-b", 0);
    assert CamelTail("-b") == "B";
    assert !HyphenAt("B", 0);
    assert CamelTail("B") == "B";
  }
}
