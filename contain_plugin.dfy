/**
 * The plugin callback: pick the table to use (the one the theme supplies
 * under `contain`, or the default table) and turn it into one utility per
 * entry, `.contain-<name> { contain: <value> }`. The host's `theme` lookup
 * becomes an optional input and `addUtilities` becomes the returned map.
 */
module ContainPlugin {
  import ContainValues

  datatype Option<T> = None | Some(value: T)

  /** The style object `{ contain: value }` of one utility. */
  datatype Style = Style(contain: string)

  /** Every selector begins with this. */
  const Prefix: string := ".contain-"

  /** The selector of the utility for `name`. */
  function Selector(name: string): string {
    Prefix + name
  }

  /** Distinct names never share a selector. */
  lemma SelectorsDistinct()
    ensures forall a, b :: Selector(a) == Selector(b) ==> a == b
  {
    forall a, b ensures Selector(a) == Selector(b) ==> a == b {
      SelectorSplits(a);
      SelectorSplits(b);
    }
  }

  /** The name a selector was made from. */
  function NameOf(sel: string): string
    requires |sel| >= |Prefix|
  {
    sel[|Prefix|..]
  }

  /** The selector of a name starts with the prefix, and the name follows. */
  lemma SelectorSplits(name: string)
    ensures |Selector(name)| == |Prefix| + |name|
    ensures Selector(name)[..|Prefix|] == Prefix && NameOf(Selector(name)) == name
  {
    var sel := Prefix + name;
    assert sel[..|Prefix|] == Prefix;
    assert sel[|Prefix|..] == name;
  }

  /** `theme('contain') || defaultContainValues`: a supplied table is used as
    * it is (an empty object is truthy, so even an empty one); only a missing
    * one falls back to the default table. */
  function EffectiveMapping(configured: Option<map<string, string>>): map<string, string> {
    match configured
    case Some(m) => m
    case None => ContainValues.DefaultTable()
  }

  /** The selector begins with `.contain-` and the rest is a name of the table. */
  predicate NamedIn(sel: string, mapping: map<string, string>) {
    |sel| >= |Prefix| && sel[..|Prefix|] == Prefix && NameOf(sel) in mapping
  }

  /** Splitting a selector at the prefix and joining it again gives it back. */
  lemma SelectorOfName(sel: string)
    requires |sel| >= |Prefix| && sel[..|Prefix|] == Prefix
    ensures Selector(NameOf(sel)) == sel
  {
    assert sel == sel[..|Prefix|] + sel[|Prefix|..];
  }

  /** The utilities for a table: the selector of each name declares
    * `contain` with that name's value. */
  function UtilityMap(mapping: map<string, string>): (u: map<string, Style>)
    ensures forall name :: name in mapping ==> Selector(name) in u && u[Selector(name)] == Style(mapping[name])
  {
    SelectorsDistinct();
    map name | name in mapping :: Selector(name) := Style(mapping[name])
  }

  /** No other selectors appear: a selector is present exactly when it is
    * `.contain-` followed by a name of the table, and it declares that
    * name's value. */
  lemma UtilityMapSelectors(mapping: map<string, string>)
    ensures forall sel :: sel in UtilityMap(mapping) <==> NamedIn(sel, mapping)
    ensures forall sel :: sel in UtilityMap(mapping) ==> UtilityMap(mapping)[sel] == Style(mapping[NameOf(sel)])
  {
    var u := UtilityMap(mapping);
    forall sel | sel in u ensures NamedIn(sel, mapping) && u[sel] == Style(mapping[NameOf(sel)]) {
      var name :| name in mapping && Selector(name) == sel;
      SelectorSplits(name);
    }
    forall sel | NamedIn(sel, mapping) ensures sel in u {
      SelectorOfName(sel);
    }
  }

  /** Every utility of the larger table is the new one or an old one. */
  lemma InsertedUtilitiesKnown(mapping: map<string, string>, bigger: map<string, string>, name: string, value: string)
    requires name !in mapping && bigger == mapping[name := value]
    ensures forall sel :: sel in UtilityMap(bigger) ==>
      if sel == Selector(name) then UtilityMap(bigger)[sel] == Style(value)
      else sel in UtilityMap(mapping) && UtilityMap(bigger)[sel] == UtilityMap(mapping)[sel]
  {
    var a := UtilityMap(bigger);
    forall sel | sel in a
      ensures if sel == Selector(name) then a[sel] == Style(value) else sel in UtilityMap(mapping) && a[sel] == UtilityMap(mapping)[sel]
    {
      var n :| n in bigger && Selector(n) == sel;
      SelectorsDistinct();
    }
  }

  /** Every old utility is still a utility of the larger table. */
  lemma OldUtilitiesKept(mapping: map<string, string>, bigger: map<string, string>, name: string, value: string)
    requires name !in mapping && bigger == mapping[name := value]
    ensures forall sel :: sel in UtilityMap(mapping) ==> sel in UtilityMap(bigger)
  {
    forall sel | sel in UtilityMap(mapping) ensures sel in UtilityMap(bigger) {
      var n :| n in mapping && Selector(n) == sel;
      assert n in bigger;
    }
  }

  /** Adding one new name to the table adds exactly its utility. */
  lemma UtilityMapInsert(mapping: map<string, string>, name: string, value: string)
    requires name !in mapping
    ensures Selector(name) !in UtilityMap(mapping)
    ensures UtilityMap(mapping[name := value]) == UtilityMap(mapping)[Selector(name) := Style(value)]
  {
    SelectorPresentIff(mapping, name);
    var bigger := mapping[name := value];
    InsertedUtilitiesKnown(mapping, bigger, name, value);
    OldUtilitiesKept(mapping, bigger, name, value);
    var a, b := UtilityMap(bigger), UtilityMap(mapping)[Selector(name) := Style(value)];
    assert a.Keys == b.Keys;
  }

  /** Adding a new name adds one utility. */
  lemma UtilityMapGrows(mapping: map<string, string>, name: string, value: string)
    requires name !in mapping
    ensures |UtilityMap(mapping[name := value])| == |UtilityMap(mapping)| + 1
  {
    UtilityMapInsert(mapping, name, value);
  }

  /** Taking a name out of a table and putting it back changes nothing. */
  lemma RemoveAndRestore(mapping: map<string, string>, name: string)
    requires name in mapping
    ensures name !in mapping - {name} && |mapping - {name}| == |mapping| - 1
    ensures (mapping - {name})[name := mapping[name]] == mapping
  {
  }

  /** One utility per name: the selectors of distinct names are distinct. */
  lemma {:induction false} UtilityMapSize(mapping: map<string, string>)
    ensures |UtilityMap(mapping)| == |mapping|
    decreases |mapping|
  {
    if |mapping| > 0 {
      var name :| name in mapping;
      var rest := mapping - {name};
      RemoveAndRestore(mapping, name);
      UtilityMapSize(rest);
      UtilityMapGrows(rest, name, mapping[name]);
    }
  }

  /** Handling one more pending name adds its entry to those handled. */
  lemma TakeOneMore(mapping: map<string, string>, pending: set<string>, name: string)
    requires name in pending && pending <= mapping.Keys
    ensures name !in mapping - pending
    ensures mapping - (pending - {name}) == (mapping - pending)[name := mapping[name]]
  {
  }

  /** The `reduce` over `Object.entries(containTheme)`: every entry
    * `[name, value]` writes `.contain-<name>` into the accumulator. The
    * entries are taken in an arbitrary order; the names are distinct, so
    * the order does not change the result. */
  method BuildUtilities(mapping: map<string, string>) returns (utilities: map<string, Style>)
    ensures utilities == UtilityMap(mapping)
    ensures |utilities| == |mapping|
  {
    utilities := map[];
    var pending := mapping.Keys;
    while pending != {}
      invariant pending <= mapping.Keys
      invariant utilities == UtilityMap(mapping - pending)
      decreases pending
    {
      var name :| name in pending;
      TakeOneMore(mapping, pending, name);
      UtilityMapInsert(mapping - pending, name, mapping[name]);
      utilities := utilities[Selector(name) := Style(mapping[name])];
      pending := pending - {name};
    }
    assert mapping - {} == mapping;
    UtilityMapSize(mapping);
  }

  /** The plugin callback: `theme('contain') || defaultContainValues`, then
    * the utilities for that table, which are handed to `addUtilities`. */
  method AddContainUtilities(configured: Option<map<string, string>>) returns (utilities: map<string, Style>)
    ensures utilities == UtilityMap(EffectiveMapping(configured))
    ensures |utilities| == |EffectiveMapping(configured)|
  {
    var defaultContainValues := ContainValues.GenerateContainValues();
    var containTheme := if configured.Some? then configured.value else defaultContainValues;
    utilities := BuildUtilities(containTheme);
  }

  /** The selector of a name is present exactly when the name is. */
  lemma SelectorPresentIff(mapping: map<string, string>, name: string)
    ensures Selector(name) in UtilityMap(mapping) <==> name in mapping
  {
    if Selector(name) in UtilityMap(mapping) {
      var n :| n in mapping && Selector(n) == Selector(name);
      SelectorsDistinct();
    }
  }

  /** Without a theme value there is one utility per entry of the default
    * table: 31 of them. */
  lemma DefaultUtilitiesSize()
    ensures |UtilityMap(EffectiveMapping(None))| == 31
  {
    ContainValues.DefaultTableSize();
    UtilityMapSize(ContainValues.DefaultTable());
  }

  /** The selectors of a few names of the default table, spelled out. */
  lemma SeededSelectors()
    ensures Selector("none") == ".contain-none" && Selector("strict") == ".contain-strict"
    ensures Selector("content") == ".contain-content"
  {
  }

  /** Without a theme value `.contain-none`, `.contain-strict` and
    * `.contain-content` declare the seeded values. */
  lemma DefaultUtilitiesEntries()
    ensures ".contain-none" in UtilityMap(EffectiveMapping(None))
    ensures UtilityMap(EffectiveMapping(None))[".contain-none"] == Style("none")
    ensures ".contain-strict" in UtilityMap(EffectiveMapping(None))
    ensures UtilityMap(EffectiveMapping(None))[".contain-strict"] == Style("size layout paint style")
    ensures ".contain-content" in UtilityMap(EffectiveMapping(None))
    ensures UtilityMap(EffectiveMapping(None))[".contain-content"] == Style("layout paint style")
  {
    ContainValues.DefaultTableSeeds();
    SeededSelectors();
  }

  /** The selector of `size-inline-size`, spelled out. */
  lemma ExcludedSelector()
    ensures Selector("size-inline-size") == ".contain-size-inline-size"
  {
  }

  /** Without a theme value there is no `.contain-size-inline-size`. */
  lemma DefaultUtilitiesExcludeBoth()
    ensures ".contain-size-inline-size" !in UtilityMap(EffectiveMapping(None))
  {
    ContainValues.SizeInlineSizeAbsent();
    SelectorPresentIff(ContainValues.DefaultTable(), "size-inline-size");
    ExcludedSelector();
  }

  /** The two utilities of the table `{custom: "layout paint", another:
    * "size style"}`. */
  lemma CustomThemeEntries()
    ensures var u := UtilityMap(map["custom" := "layout paint", "another" := "size style"]);
      && ".contain-custom" in u && u[".contain-custom"] == Style("layout paint")
      && ".contain-another" in u && u[".contain-another"] == Style("size style")
  {
    var custom := map["custom" := "layout paint", "another" := "size style"];
    assert Selector("custom") == ".contain-custom" && Selector("another") == ".contain-another";
    assert |"custom"| != |"another"|;
    assert custom["custom"] == "layout paint" && custom["another"] == "size style";
  }

  /** The table `{custom: "layout paint", another: "size style"}` has no
    * other selectors than `.contain-custom` and `.contain-another`. */
  lemma CustomThemeSelectors()
    ensures forall sel :: sel in UtilityMap(map["custom" := "layout paint", "another" := "size style"]) ==>
      sel == ".contain-custom" || sel == ".contain-another"
  {
    var custom := map["custom" := "layout paint", "another" := "size style"];
    forall sel | sel in UtilityMap(custom) ensures sel == ".contain-custom" || sel == ".contain-another" {
      var n :| n in custom && Selector(n) == sel;
    }
  }

  /** A theme value replaces the default table entirely: the table
    * `{custom: "layout paint", another: "size style"}` yields exactly
    * `.contain-custom` and `.contain-another`. */
  lemma CustomThemeUtilities()
    ensures UtilityMap(EffectiveMapping(Some(map["custom" := "layout paint", "another" := "size style"])))
         == map[".contain-custom" := Style("layout paint"), ".contain-another" := Style("size style")]
  {
    CustomThemeEntries();
    CustomThemeSelectors();
  }

  /** An empty theme value is still a value: it yields no utilities at all
    * rather than the defaults. */
  lemma EmptyThemeUtilities()
    ensures UtilityMap(EffectiveMapping(Some(map[]))) == map[]
  {
    UtilityMapSize(map[]);
  }

}