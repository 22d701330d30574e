/**
 * The value table behind the `contain-*` utilities: every name a class can
 * carry after `contain-`, mapped to the value of the CSS `contain` property
 * it stands for: `none`, the shorthands `strict` and `content`, the
 * CSS-wide keywords inherit, initial, revert, revert-layer and unset, and
 * every non-empty set of the keywords size, inline-size, layout, style and
 * paint that does not hold both size and inline-size. Each such set is
 * listed once, its keywords in declaration order.
 */
module ContainValues {

  /** The keywords that may be combined. Each stands for its CSS name. */
  datatype Keyword = Size | InlineSize | Layout | Style | Paint

  /** The CSS name of a keyword. */
  function Name(k: Keyword): string {
    match k
    case Size => "size"
    case InlineSize => "inline-size"
    case Layout => "layout"
    case Style => "style"
    case Paint => "paint"
  }

  /** The keyword list, in declaration order. */
  const Keywords: seq<Keyword> := [Size, InlineSize, Layout, Style, Paint]

  /** The number of keywords, `n` in the generator. */
  const KeywordCount: nat := 5

  /** The fixed entries the table starts from. */
  const Seeds: map<string, string> := map[
    "none" := "none",
    "strict" := "size layout paint style",
    "content" := "layout paint style",
    "inherit" := "inherit",
    "initial" := "initial",
    "revert" := "revert",
    "revert-layer" := "revert-layer",
    "unset" := "unset"
  ]

  /** `1 << i` */
  function Pow2(i: nat): nat {
    if i == 0 then 1 else 2 * Pow2(i - 1)
  }

  /** The first mask not enumerated, `1 << n`. */
  const MaskLimit: nat := Pow2(KeywordCount)

  /** `mask & (1 << i)` is non-zero: bit `i` of the mask is set. */
  predicate HasBit(mask: nat, i: nat) {
    if i == 0 then mask % 2 == 1 else HasBit(mask / 2, i - 1)
  }

  /** The keywords among the first `n` whose bit is set in `mask`, in
    * declaration order: the array the inner loop has built after `n` rounds. */
  function PartsUpTo(mask: nat, n: nat): seq<Keyword>
    requires n <= KeywordCount
  {
    if n == 0 then []
    else PartsUpTo(mask, n - 1) + (if HasBit(mask, n - 1) then [Keywords[n - 1]] else [])
  }

  /** The keywords a mask selects. */
  function Parts(mask: nat): seq<Keyword> {
    PartsUpTo(mask, KeywordCount)
  }

  /** `parts.join(sep)`: the keywords' names with `sep` between them. */
  function Join(parts: seq<Keyword>, sep: string): string {
    if |parts| == 0 then ""
    else if |parts| == 1 then Name(parts[0])
    else Name(parts[0]) + sep + Join(parts[1..], sep)
  }

  /** `size` and `inline-size` are mutually exclusive. */
  predicate HasBothSizeAndInlineSize(parts: seq<Keyword>) {
    Size in parts && InlineSize in parts
  }

  /** The class-name suffix a mask generates. */
  function Key(mask: nat): string {
    Join(Parts(mask), "-")
  }

  /** The `contain` value a mask generates. */
  function Value(mask: nat): string {
    Join(Parts(mask), " ")
  }

  /** A mask whose selection is not skipped. */
  predicate Generates(mask: nat) {
    !HasBothSizeAndInlineSize(Parts(mask))
  }

  /** JavaScript's `!values[key]`: the key is absent or holds the (falsy)
    * empty string. */
  predicate Falsy(values: map<string, string>, key: string) {
    key !in values || values[key] == ""
  }

  /** One round of the outer loop: the entry for `mask` is added unless the
    * selection is skipped or its key already holds a value. */
  function Step(values: map<string, string>, mask: nat): map<string, string> {
    if !Generates(mask) then values
    else if Falsy(values, Key(mask)) then values[Key(mask) := Value(mask)]
    else values
  }

  /** The table after the outer loop has handled the masks below `n`. */
  function TableUpTo(n: nat): map<string, string>
    requires 1 <= n <= MaskLimit
  {
    if n == 1 then Seeds else Step(TableUpTo(n - 1), n - 1)
  }

  /** `defaultContainValues` */
  function DefaultTable(): map<string, string> {
    TableUpTo(MaskLimit)
  }

  /** The number of masks in [1, n) whose two low bits (`size` and
    * `inline-size`) are not both set. */
  function CountGenerating(n: nat): nat {
    if n <= 1 then 0 else CountGenerating(n - 1) + (if (n - 1) % 4 != 3 then 1 else 0)
  }

  // ---------------------------------------------------------------------
  // Facts about the keywords and the selection of a mask
  // ---------------------------------------------------------------------

  /** The position of a keyword in declaration order. */
  function Rank(k: Keyword): nat {
    match k
    case Size => 0
    case InlineSize => 1
    case Layout => 2
    case Style => 3
    case Paint => 4
  }

  /** Two strings, each at least three characters long, agree on their
    * first three characters. */
  predicate SameStart(s: string, t: string)
    requires |s| >= 3 && |t| >= 3
  {
    s[0] == t[0] && s[1] == t[1] && s[2] == t[2]
  }

  /** Each keyword sits at its own rank, its name is at least four
    * characters long, and the first three characters of its name tell it
    * apart from the others (`siz`, `inl`, `lay`, `sty`, `pai`). */
  lemma KeywordFacts()
    ensures |Keywords| == KeywordCount && MaskLimit == 32
    ensures forall i :: 0 <= i < KeywordCount ==> Rank(Keywords[i]) == i
    ensures forall k :: |Name(k)| >= 4
    ensures forall a, b :: SameStart(Name(a), Name(b)) ==> a == b
  {
  }

  /** The selection holds keywords in strictly increasing declaration
    * order, and holds keyword `i` exactly when bit `i` of the mask is set. */
  lemma {:induction false} PartsUpToSpec(mask: nat, n: nat)
    requires n <= KeywordCount
    ensures forall k :: k in PartsUpTo(mask, n) ==> Rank(k) < n
    ensures forall i :: 0 <= i < KeywordCount ==> (Keywords[i] in PartsUpTo(mask, n) <==> i < n && HasBit(mask, i))
    ensures forall j, k :: 0 <= j < k < |PartsUpTo(mask, n)| ==> Rank(PartsUpTo(mask, n)[j]) < Rank(PartsUpTo(mask, n)[k])
  {
    KeywordFacts();
    if n > 0 {
      PartsUpToSpec(mask, n - 1);
    }
  }

  /** Each bit test is a test on the mask halved that many times. */
  lemma BitsUnfold(mask: nat)
    ensures HasBit(mask, 0) <==> mask % 2 == 1
    ensures HasBit(mask, 1) <==> (mask / 2) % 2 == 1
    ensures HasBit(mask, 2) <==> (mask / 2 / 2) % 2 == 1
    ensures HasBit(mask, 3) <==> (mask / 2 / 2 / 2) % 2 == 1
    ensures HasBit(mask, 4) <==> (mask / 2 / 2 / 2 / 2) % 2 == 1
  {
    assert HasBit(mask, 4) == HasBit(mask / 2, 3);
    assert HasBit(mask / 2, 3) == HasBit(mask / 2 / 2, 2);
    assert HasBit(mask / 2 / 2, 2) == HasBit(mask / 2 / 2 / 2, 1);
    assert HasBit(mask, 3) == HasBit(mask / 2, 2);
    assert HasBit(mask / 2, 2) == HasBit(mask / 2 / 2, 1);
    assert HasBit(mask, 2) == HasBit(mask / 2, 1);
  }

  /** A mask in [1, 32) selects at least one keyword. */
  lemma NonEmptySelection(mask: nat)
    requires 1 <= mask < MaskLimit
    ensures |Parts(mask)| >= 1
  {
    KeywordFacts();
    BitsUnfold(mask);
    PartsUpToSpec(mask, KeywordCount);
    assert HasBit(mask, 0) || HasBit(mask, 1) || HasBit(mask, 2) || HasBit(mask, 3) || HasBit(mask, 4);
    var i :| 0 <= i < KeywordCount && HasBit(mask, i);
    assert Keywords[i] in Parts(mask);
  }

  /** A mask below 32 is the sum of its five bits, each times its weight. */
  lemma BinaryDigits(m: nat)
    requires m < 32
    ensures m == m % 2 + 2 * ((m / 2) % 2) + 4 * ((m / 2 / 2) % 2) + 8 * ((m / 2 / 2 / 2) % 2) + 16 * ((m / 2 / 2 / 2 / 2) % 2)
  {
    assert m == 2 * (m / 2) + m % 2;
    assert m / 2 == 2 * (m / 2 / 2) + (m / 2) % 2;
    assert m / 2 / 2 == 2 * (m / 2 / 2 / 2) + (m / 2 / 2) % 2;
    assert m / 2 / 2 / 2 == 2 * (m / 2 / 2 / 2 / 2) + (m / 2 / 2 / 2) % 2;
    assert m / 2 / 2 / 2 / 2 < 2;
  }

  /** A mask below 32 is determined by its five bits. */
  lemma BitsDetermineMask(m1: nat, m2: nat)
    requires m1 < MaskLimit && m2 < MaskLimit
    requires forall i :: 0 <= i < KeywordCount ==> (HasBit(m1, i) <==> HasBit(m2, i))
    ensures m1 == m2
  {
    assert MaskLimit == 32;
    BitsUnfold(m1);
    BitsUnfold(m2);
    BinaryDigits(m1);
    BinaryDigits(m2);
    assert HasBit(m1, 0) == HasBit(m2, 0) && HasBit(m1, 1) == HasBit(m2, 1) && HasBit(m1, 2) == HasBit(m2, 2);
    assert HasBit(m1, 3) == HasBit(m2, 3) && HasBit(m1, 4) == HasBit(m2, 4);
  }

  /** Distinct masks select distinct keyword lists. */
  lemma SelectionInjective(m1: nat, m2: nat)
    requires m1 < MaskLimit && m2 < MaskLimit
    requires Parts(m1) == Parts(m2)
    ensures m1 == m2
  {
    PartsUpToSpec(m1, KeywordCount);
    PartsUpToSpec(m2, KeywordCount);
    BitsDetermineMask(m1, m2);
  }

  /** A string is the prefix of itself followed by anything. */
  lemma PrefixOfConcat(h: string, rest: string)
    ensures |h + rest| >= |h| && (h + rest)[..|h|] == h
  {
  }

  /** A joined list begins with the name of its first keyword. */
  lemma JoinStartsWithHead(parts: seq<Keyword>, sep: string)
    requires |parts| >= 1
    ensures |Join(parts, sep)| >= |Name(parts[0])| && Join(parts, sep)[..|Name(parts[0])|] == Name(parts[0])
    ensures |parts| == 1 ==> Join(parts, sep) == Name(parts[0])
    ensures |parts| > 1 ==> Join(parts, sep) == Name(parts[0]) + sep + Join(parts[1..], sep)
  {
    var x := Name(parts[0]);
    if |parts| > 1 {
      var rest := sep + Join(parts[1..], sep);
      assert Join(parts, sep) == x + rest;
      PrefixOfConcat(x, rest);
    } else {
      assert x[..|x|] == x;
    }
  }

  /** A list of keywords joins to the empty string only when it is empty. */
  lemma JoinEmptyIff(parts: seq<Keyword>, sep: string)
    ensures |Join(parts, sep)| == 0 <==> |parts| == 0
  {
    if |parts| > 0 {
      KeywordFacts();
      JoinStartsWithHead(parts, sep);
    }
  }

  /** Joining keyword lists with `-` loses nothing: no two different lists
    * of keywords give the same string, although `inline-size` itself
    * contains a `-`. */
  lemma {:induction false} JoinKeywordsInjective(xs: seq<Keyword>, ys: seq<Keyword>)
    requires Join(xs, "-") == Join(ys, "-")
    ensures xs == ys
  {
    KeywordFacts();
    JoinEmptyIff(xs, "-");
    JoinEmptyIff(ys, "-");
    if |xs| > 0 {
      var s := Join(xs, "-");
      JoinStartsWithHead(xs, "-");
      JoinStartsWithHead(ys, "-");
      var x, y := Name(xs[0]), Name(ys[0]);
      assert s[..|x|][0] == s[0] && s[..|x|][1] == s[1] && s[..|x|][2] == s[2];
      assert s[..|y|][0] == s[0] && s[..|y|][1] == s[1] && s[..|y|][2] == s[2];
      assert SameStart(x, y);
      assert xs[0] == ys[0];
      var h := xs[0];
      assert |xs| > 1 <==> |s| > |x|;
      assert |ys| > 1 <==> |s| > |x|;
      if |xs| > 1 {
        assert s == x + "-" + Join(xs[1..], "-") == x + "-" + Join(ys[1..], "-");
        assert s[|x| + 1..] == Join(xs[1..], "-");
        assert s[|x| + 1..] == Join(ys[1..], "-");
        JoinKeywordsInjective(xs[1..], ys[1..]);
        assert xs == [h] + xs[1..] && ys == [h] + ys[1..];
      }
    }
  }

  /** Distinct masks give distinct class-name suffixes. */
  lemma KeyInjective(m1: nat, m2: nat)
    requires m1 < MaskLimit && m2 < MaskLimit
    ensures Key(m1) == Key(m2) ==> m1 == m2
  {
    if Key(m1) == Key(m2) {
      JoinKeywordsInjective(Parts(m1), Parts(m2));
      SelectionInjective(m1, m2);
    }
  }

  /** No generated suffix is one of the seeded names. */
  lemma KeyNotSeeded(mask: nat)
    requires 1 <= mask < MaskLimit
    ensures Key(mask) !in Seeds
  {
    NonEmptySelection(mask);
    JoinNotSeeded(Parts(mask));
  }

  /** No seeded name begins with the first three characters of a keyword. */
  lemma SeedsStartApart(s: string, k: Keyword)
    requires |s| >= 3 && s[0] == Name(k)[0] && s[1] == Name(k)[1] && s[2] == Name(k)[2]
    ensures s !in Seeds
  {
  }

  /** A joined non-empty list begins with the first three characters of the
    * name of its first keyword. */
  lemma JoinFirstChars(p: seq<Keyword>, sep: string)
    requires |p| >= 1
    ensures |Join(p, sep)| >= 3 && |Name(p[0])| >= 3
    ensures forall i :: 0 <= i < 3 ==> Join(p, sep)[i] == Name(p[0])[i]
  {
    KeywordFacts();
    var x := Name(p[0]);
    JoinStartsWithHead(p, sep);
    var s := Join(p, sep);
    forall i | 0 <= i < 3 ensures s[i] == x[i] {
      assert s[..|x|][i] == s[i];
    }
  }

  /** A non-empty keyword list never joins to a seeded name: the join begins
    * with the first three characters of a keyword, and no seeded name does. */
  lemma JoinNotSeeded(p: seq<Keyword>)
    requires |p| >= 1
    ensures Join(p, "-") !in Seeds
  {
    JoinFirstChars(p, "-");
    var s := Join(p, "-");
    assert s[0] == Name(p[0])[0] && s[1] == Name(p[0])[1] && s[2] == Name(p[0])[2];
    SeedsStartApart(s, p[0]);
  }

  /** The two low bits of a mask are its remainder modulo 4. */
  lemma LowBits(mask: nat)
    ensures mask % 4 == mask % 2 + 2 * ((mask / 2) % 2)
  {
    var q := mask / 4;
    var r := mask % 4;
    assert mask == 4 * q + r;
    assert mask / 2 == 2 * q + r / 2;
    assert mask % 2 == r % 2;
  }

  /** A mask is skipped exactly when it selects both `size` (bit 0) and
    * `inline-size` (bit 1), that is, when its two low bits are both set. */
  lemma GeneratesIff(mask: nat)
    requires mask < MaskLimit
    ensures Generates(mask) <==> !(HasBit(mask, 0) && HasBit(mask, 1))
    ensures Generates(mask) <==> mask % 4 != 3
  {
    KeywordFacts();
    PartsUpToSpec(mask, KeywordCount);
    assert Keywords[0] == Size && Keywords[1] == InlineSize;
    assert Size in Parts(mask) <==> HasBit(mask, 0);
    assert InlineSize in Parts(mask) <==> HasBit(mask, 1);
    BitsUnfold(mask);
    LowBits(mask);
  }

  /** Each selected keyword is non-empty, so is every generated value. */
  lemma ValueNonEmpty(mask: nat)
    requires 1 <= mask < MaskLimit
    ensures Value(mask) != ""
  {
    PartsUpToSpec(mask, KeywordCount);
    NonEmptySelection(mask);
    JoinEmptyIff(Parts(mask), " ");
  }

  // ---------------------------------------------------------------------
  // The table after each round of the outer loop
  // ---------------------------------------------------------------------

  /** The key a generating mask adds is not in the table yet, and the value
    * it adds is not empty, so the round inserts it. */
  lemma StepInserts(n: nat)
    requires 1 <= n < MaskLimit
    requires forall k :: k in TableUpTo(n) ==> k in Seeds || exists m :: 1 <= m < n && Generates(m) && Key(m) == k
    requires Generates(n)
    ensures Key(n) !in TableUpTo(n) && Value(n) != ""
    ensures TableUpTo(n + 1) == TableUpTo(n)[Key(n) := Value(n)]
  {
    KeyNotSeeded(n);
    forall m | 1 <= m < n && Generates(m) ensures Key(m) != Key(n) {
      KeyInjective(m, n);
    }
    ValueNonEmpty(n);
  }

  /** After the masks below `n`: every key is a seeded name or the key of a
    * generating mask below `n`, and no value is empty. */
  lemma {:induction false} TableUpToKeys(n: nat)
    requires 1 <= n <= MaskLimit
    ensures forall k :: k in TableUpTo(n) ==> k in Seeds || exists m :: 1 <= m < n && Generates(m) && Key(m) == k
    ensures forall k :: k in TableUpTo(n) ==> TableUpTo(n)[k] != ""
  {
    if n > 1 {
      TableUpToKeys(n - 1);
      if Generates(n - 1) {
        StepInserts(n - 1);
      }
    }
  }

  /** First write wins: after the masks below `n` every seeded entry still
    * holds its seeded value. */
  lemma {:induction false} TableUpToKeepsSeeds(n: nat)
    requires 1 <= n <= MaskLimit
    ensures forall k :: k in Seeds ==> k in TableUpTo(n) && TableUpTo(n)[k] == Seeds[k]
  {
    if n > 1 {
      TableUpToKeepsSeeds(n - 1);
      TableUpToKeys(n - 1);
      if Generates(n - 1) {
        StepInserts(n - 1);
        KeyNotSeeded(n - 1);
      }
    }
  }

  /** After the masks below `n`, every generating mask below `n` has its
    * entry, and no later round has overwritten an earlier one. */
  lemma {:induction false} TableUpToComplete(n: nat)
    requires 1 <= n <= MaskLimit
    ensures forall m :: 1 <= m < n && Generates(m) ==> Key(m) in TableUpTo(n) && TableUpTo(n)[Key(m)] == Value(m)
  {
    if n > 1 {
      var last := n - 1;
      var before := TableUpTo(last);
      TableUpToComplete(last);
      TableUpToKeys(last);
      if Generates(last) {
        StepInserts(last);
        var after := before[Key(last) := Value(last)];
        assert TableUpTo(n) == after;
        forall m | 1 <= m < n && Generates(m) ensures Key(m) in after && after[Key(m)] == Value(m) {
          if m < last {
            KeyInjective(m, last);
            assert Key(m) in before && before[Key(m)] == Value(m);
          }
        }
      } else {
        assert TableUpTo(n) == before;
      }
    }
  }

  /** A round adds one key when its mask generates and none otherwise. */
  lemma TableStepSize(n: nat)
    requires 2 <= n <= MaskLimit
    ensures |TableUpTo(n)| == |TableUpTo(n - 1)| + (if (n - 1) % 4 != 3 then 1 else 0)
  {
    var last := n - 1;
    var before := TableUpTo(last);
    TableUpToKeys(last);
    GeneratesIff(last);
    if Generates(last) {
      StepInserts(last);
      assert |before[Key(last) := Value(last)]| == |before| + 1;
    } else {
      assert TableUpTo(n) == before;
    }
  }

  /** Every generating round adds exactly one key. */
  lemma {:induction false} TableUpToSize(n: nat)
    requires 1 <= n <= MaskLimit
    ensures |TableUpTo(n)| == |Seeds| + CountGenerating(n)
  {
    if n > 1 {
      TableUpToSize(n - 1);
      TableStepSize(n);
    }
  }

  /** Of the masks 1 .. 4k - 1, the k masks ending in two set bits are
    * skipped: 3k - 1 generate. */
  lemma {:induction false} CountGeneratingBlocks(k: nat)
    requires 1 <= k
    ensures CountGenerating(4 * k) == 3 * k - 1
  {
    var n := 4 * k;
    assert (n - 1) % 4 == 3 && (n - 2) % 4 == 2 && (n - 3) % 4 == 1 && (n - 4) % 4 == 0;
    assert CountGenerating(n) == CountGenerating(n - 1);
    assert CountGenerating(n - 1) == CountGenerating(n - 2) + 1;
    assert CountGenerating(n - 2) == CountGenerating(n - 3) + 1;
    if k == 1 {
      assert CountGenerating(n - 3) == 0;
    } else {
      CountGeneratingBlocks(k - 1);
      assert CountGenerating(n - 3) == 3 * k - 3;
    }
  }

  /** The seeded entries are eight distinct names. */
  lemma SeedCount()
    ensures |Seeds| == 8
  {
    assert Seeds.Keys == {"none", "strict", "content", "inherit", "initial", "revert", "revert-layer", "unset"};
    assert "content"[0] != "inherit"[0] && "content"[0] != "initial"[0] && "inherit"[2] != "initial"[2];
    assert "strict"[0] != "revert"[0];
  }

  /** `!values[key]` in the generator means "the key is absent": no round
    * ever meets a key holding the empty string. */
  lemma FalsyMeansAbsent(n: nat, key: string)
    requires 1 <= n <= MaskLimit
    ensures Falsy(TableUpTo(n), key) <==> key !in TableUpTo(n)
  {
    TableUpToKeys(n);
  }

  // ---------------------------------------------------------------------
  // The generator
  // ---------------------------------------------------------------------

  /** One round of the outer loop, in the terms the generator uses: the
    * selected keywords, the skip test, the truthiness test and the update. */
  lemma RoundOf(mask: nat, values: map<string, string>, parts: seq<Keyword>)
    requires 1 <= mask < MaskLimit && values == TableUpTo(mask) && parts == PartsUpTo(mask, |Keywords|)
    ensures TableUpTo(mask + 1) ==
      if HasBothSizeAndInlineSize(parts) then values
      else if Falsy(values, Join(parts, "-")) then values[Join(parts, "-") := Join(parts, " ")]
      else values
  {
  }

  /** `generateContainValues`: seed the table, then walk every mask from 1
    * to 31, collect the keywords it selects, skip selections holding both
    * `size` and `inline-size`, and add the rest unless the key is taken. */
  method GenerateContainValues() returns (values: map<string, string>)
    ensures values == DefaultTable()
    ensures |values| == 31
  {
    values := Seeds;
    var keywords := Keywords;
    var n := |keywords|;
    for mask := 1 to Pow2(n)
      invariant values == TableUpTo(mask)
    {
      var parts: seq<Keyword> := [];
      for i := 0 to n
        invariant parts == PartsUpTo(mask, i)
      {
        if HasBit(mask, i) {
          parts := parts + [keywords[i]];
        }
      }
      RoundOf(mask, values, parts);
      if HasBothSizeAndInlineSize(parts) {
        continue;
      }
      var key := Join(parts, "-");
      var value := Join(parts, " ");
      if Falsy(values, key) {
        values := values[key := value];
      }
    }
    DefaultTableSize();
  }

  // ---------------------------------------------------------------------
  // What the default table holds
  // ---------------------------------------------------------------------

  /** The table has 8 seeded plus 23 generated keys, and no empty value. */
  lemma DefaultTableSize()
    ensures |DefaultTable()| == 31
    ensures forall k :: k in DefaultTable() ==> DefaultTable()[k] != ""
  {
    KeywordFacts();
    TableUpToSize(MaskLimit);
    SeedCount();
    CountGeneratingBlocks(8);
    TableUpToKeys(MaskLimit);
  }

  /** The seeded names keep their seeded values: `none`, the shorthands
    * `strict` and `content`, and the CSS-wide keywords mapping to themselves. */
  lemma DefaultTableSeeds()
    ensures forall k :: k in Seeds ==> k in DefaultTable() && DefaultTable()[k] == Seeds[k]
    ensures "none" in DefaultTable() && DefaultTable()["none"] == "none"
    ensures "strict" in DefaultTable() && DefaultTable()["strict"] == "size layout paint style"
    ensures "content" in DefaultTable() && DefaultTable()["content"] == "layout paint style"
    ensures forall g :: g in ["inherit", "initial", "revert", "revert-layer", "unset"] ==> g in DefaultTable() && DefaultTable()[g] == g
  {
    TableUpToKeepsSeeds(MaskLimit);
    assert "none" in Seeds && "strict" in Seeds && "content" in Seeds;
    forall g | g in ["inherit", "initial", "revert", "revert-layer", "unset"]
      ensures g in DefaultTable() && DefaultTable()[g] == g
    {
      assert g in Seeds && Seeds[g] == g;
    }
  }

  /** Every selection of keywords without both `size` and `inline-size` has
    * its entry: the keywords joined by `-`, mapped to the same keywords
    * joined by a space. */
  lemma DefaultTableComplete()
    ensures forall m :: 1 <= m < MaskLimit && !(HasBit(m, 0) && HasBit(m, 1)) ==>
      Key(m) in DefaultTable() && DefaultTable()[Key(m)] == Value(m)
  {
    KeywordFacts();
    TableUpToComplete(MaskLimit);
    forall m | 1 <= m < MaskLimit && !(HasBit(m, 0) && HasBit(m, 1))
      ensures Key(m) in DefaultTable() && DefaultTable()[Key(m)] == Value(m)
    {
      GeneratesIff(m);
    }
  }

  /** Nothing else is in the table: every key is seeded or generated by a
    * mask that does not select both `size` and `inline-size`. */
  lemma DefaultTableKeys()
    ensures forall k :: k in DefaultTable() ==>
      k in Seeds || exists m :: 1 <= m < MaskLimit && !(HasBit(m, 0) && HasBit(m, 1)) && Key(m) == k
  {
    KeywordFacts();
    TableUpToKeys(MaskLimit);
    forall k | k in DefaultTable() && k !in Seeds
      ensures exists m :: 1 <= m < MaskLimit && !(HasBit(m, 0) && HasBit(m, 1)) && Key(m) == k
    {
      var m :| 1 <= m < MaskLimit && Generates(m) && Key(m) == k;
      GeneratesIff(m);
    }
  }

  /** The keywords mask 28 selects. */
  lemma Mask28Parts()
    ensures Parts(28) == [Layout, Style, Paint]
  {
  }

  /** How they join. */
  lemma Mask28Joined()
    ensures Join([Layout, Style, Paint], "-") == "layout-style-paint" && Join([Layout, Style, Paint], " ") == "layout style paint"
  {
    assert [Layout, Style, Paint][1..] == [Style, Paint];
    assert Join([Style, Paint], "-") == "style-paint" && Join([Style, Paint], " ") == "style paint";
  }

  /** Mask 28 spells `layout-style-paint` and `layout style paint`. */
  lemma LayoutStylePaintSpelled()
    ensures Key(28) == "layout-style-paint" && Value(28) == "layout style paint"
  {
    Mask28Parts();
    Mask28Joined();
  }

  /** The key of one mask selecting both `size` and `inline-size` is absent. */
  lemma KeyWithBothAbsent(m: nat)
    requires 1 <= m < MaskLimit && HasBit(m, 0) && HasBit(m, 1)
    ensures Key(m) !in DefaultTable()
  {
    DefaultTableKeys();
    KeyNotSeeded(m);
    forall m' | 1 <= m' < MaskLimit && !(HasBit(m', 0) && HasBit(m', 1))
      ensures Key(m') != Key(m)
    {
      KeyInjective(m', m);
    }
  }

  /** Any list of keywords holding both `size` and `inline-size`, in any
    * order, joins to a name that is not in the table. */
  lemma JoinWithBothAbsent(xs: seq<Keyword>)
    requires Size in xs && InlineSize in xs
    ensures Join(xs, "-") !in DefaultTable()
  {
    DefaultTableKeys();
    JoinNotSeeded(xs);
    forall m | 1 <= m < MaskLimit && !(HasBit(m, 0) && HasBit(m, 1))
      ensures Key(m) != Join(xs, "-")
    {
      GeneratesIff(m);
      if Key(m) == Join(xs, "-") {
        JoinKeywordsInjective(Parts(m), xs);
      }
    }
  }

  /** `size` and `inline-size` join to `size-inline-size`. */
  lemma SizeInlineSizeSpelling()
    ensures Join([Size, InlineSize], "-") == "size-inline-size"
  {
  }

  /** `size-inline-size` is not a name of the table. */
  lemma SizeInlineSizeAbsent()
    ensures "size-inline-size" !in DefaultTable()
  {
    SizeInlineSizeSpelling();
    JoinWithBothAbsent([Size, InlineSize]);
  }

  /** `size` and `inline-size` never meet: no key built from both, from a
    * mask or from any list of keywords in any order, is in the table. */
  lemma DefaultTableExcludesBoth()
    ensures forall m :: 1 <= m < MaskLimit && HasBit(m, 0) && HasBit(m, 1) ==> Key(m) !in DefaultTable()
    ensures forall xs :: Size in xs && InlineSize in xs ==> Join(xs, "-") !in DefaultTable()
  {
    forall m | 1 <= m < MaskLimit && HasBit(m, 0) && HasBit(m, 1)
      ensures Key(m) !in DefaultTable()
    {
      KeyWithBothAbsent(m);
    }
    forall xs | Size in xs && InlineSize in xs
      ensures Join(xs, "-") !in DefaultTable()
    {
      JoinWithBothAbsent(xs);
    }
  }

  /** The keys and values of the single keywords. */
  lemma SingleKeywordEntries()
    ensures Key(1) == "size" && Value(1) == "size"
    ensures Key(2) == "inline-size" && Value(2) == "inline-size"
    ensures Key(4) == "layout" && Value(4) == "layout"
    ensures Key(8) == "style" && Value(8) == "style"
    ensures Key(16) == "paint" && Value(16) == "paint"
  {
    assert Parts(1) == [Size];
    assert Parts(2) == [InlineSize];
    assert Parts(4) == [Layout];
    assert Parts(8) == [Style];
    assert Parts(16) == [Paint];
  }

  /** The keywords mask 5 selects. */
  lemma Mask5Parts()
    ensures Parts(5) == [Size, Layout]
  {
  }

  /** How they join. */
  lemma Mask5Joined()
    ensures Join([Size, Layout], "-") == "size-layout" && Join([Size, Layout], " ") == "size layout"
  {
  }

  /** Mask 5 spells `size-layout` and `size layout`. */
  lemma SizeLayoutSpelled()
    ensures Key(5) == "size-layout" && Value(5) == "size layout"
  {
    Mask5Parts();
    Mask5Joined();
  }

  /** The keywords mask 6 selects. */
  lemma Mask6Parts()
    ensures Parts(6) == [InlineSize, Layout]
  {
  }

  /** How they join. */
  lemma Mask6Joined()
    ensures Join([InlineSize, Layout], "-") == "inline-size-layout" && Join([InlineSize, Layout], " ") == "inline-size layout"
  {
  }

  /** Mask 6 spells `inline-size-layout` and `inline-size layout`. */
  lemma InlineSizeLayoutSpelled()
    ensures Key(6) == "inline-size-layout" && Value(6) == "inline-size layout"
  {
    Mask6Parts();
    Mask6Joined();
  }

  /** The keywords mask 20 selects. */
  lemma Mask20Parts()
    ensures Parts(20) == [Layout, Paint]
  {
  }

  /** How they join. */
  lemma Mask20Joined()
    ensures Join([Layout, Paint], "-") == "layout-paint" && Join([Layout, Paint], " ") == "layout paint"
  {
  }

  /** Mask 20 spells `layout-paint` and `layout paint`. */
  lemma LayoutPaintSpelled()
    ensures Key(20) == "layout-paint" && Value(20) == "layout paint"
  {
    Mask20Parts();
    Mask20Joined();
  }

  /** The entry of one mask that does not select both `size` and
    * `inline-size`. */
  lemma MaskEntry(m: nat)
    requires 1 <= m < MaskLimit && !(HasBit(m, 0) && HasBit(m, 1))
    ensures Key(m) in DefaultTable() && DefaultTable()[Key(m)] == Value(m)
  {
    DefaultTableComplete();
  }

  /** Each single keyword is a key mapping to itself. */
  lemma DefaultTableSingles()
    ensures forall k :: Name(k) in DefaultTable() && DefaultTable()[Name(k)] == Name(k)
  {
    KeywordFacts();
    SingleKeywordEntries();
    assert !HasBit(1, 1) && !HasBit(2, 0) && !HasBit(4, 0) && !HasBit(8, 0) && !HasBit(16, 0);
    MaskEntry(1);
    MaskEntry(2);
    MaskEntry(4);
    MaskEntry(8);
    MaskEntry(16);
  }

  /** None of the masks 5, 6, 20 and 28 selects both `size` and
    * `inline-size`. */
  lemma CombinationBits()
    ensures !HasBit(5, 1) && !HasBit(6, 0) && !HasBit(20, 0) && !HasBit(28, 0)
  {
  }

  /** The combinations the plugin's users write: both `size-layout` and
    * `inline-size-layout`, `layout-paint` and `layout-style-paint`. */
  lemma DefaultTableCombinations()
    ensures "size-layout" in DefaultTable() && DefaultTable()["size-layout"] == "size layout"
    ensures "inline-size-layout" in DefaultTable() && DefaultTable()["inline-size-layout"] == "inline-size layout"
    ensures "layout-paint" in DefaultTable() && DefaultTable()["layout-paint"] == "layout paint"
    ensures "layout-style-paint" in DefaultTable() && DefaultTable()["layout-style-paint"] == "layout style paint"
  {
    KeywordFacts();
    SizeLayoutSpelled();
    InlineSizeLayoutSpelled();
    LayoutPaintSpelled();
    LayoutStylePaintSpelled();
    CombinationBits();
    MaskEntry(5);
    MaskEntry(6);
    MaskEntry(20);
    MaskEntry(28);
  }

  /** Keys follow declaration order: a list of keywords that is out of
    * declaration order somewhere, or repeats a keyword, joins to a name
    * that is not in the table. */
  lemma JoinOutOfOrderAbsent(xs: seq<Keyword>, j: nat, k: nat)
    requires j < k < |xs| && Rank(xs[j]) >= Rank(xs[k])
    ensures Join(xs, "-") !in DefaultTable()
  {
    DefaultTableKeys();
    JoinNotSeeded(xs);
    forall m | 1 <= m < MaskLimit && !(HasBit(m, 0) && HasBit(m, 1))
      ensures Key(m) != Join(xs, "-")
    {
      PartsUpToSpec(m, KeywordCount);
      if Key(m) == Join(xs, "-") {
        JoinKeywordsInjective(Parts(m), xs);
      }
    }
  }

  /** `layout`, `paint` and `style`, in that order, join to `layout-paint-style`. */
  lemma OutOfOrderJoined()
    ensures Join([Layout, Paint, Style], "-") == "layout-paint-style"
  {
  }

  /** `layout-paint-style` is not a key; only `layout-style-paint` is. */
  lemma DefaultTableKeepsOrder()
    ensures "layout-paint-style" !in DefaultTable()
    ensures "layout-style-paint" in DefaultTable()
  {
    OutOfOrderJoined();
    JoinOutOfOrderAbsent([Layout, Paint, Style], 1, 2);
    DefaultTableCombinations();
  }

}