/** The language menu's entries and the order they are listed in: each entry
    is sorted by a key taken from the first character of its display name
    (show_tree_gui.py:45-71). */
module LanguageOptions {
  import opened LexOrder
  import opened StableSort
  import opened Wrappers

  /** Display names are never empty: the key reads their first character. */
  type DisplayName = s: string | |s| > 0 witness "?"

  /** A `(language code, display name)` pair. */
  datatype LanguageOption = LanguageOption(code: string, displayName: DisplayName)

  /** The menu entries in the order the module lists them. */
  const Catalog: seq<LanguageOption> := [
    LanguageOption("en", "English"),
    LanguageOption("ja", "\U{65E5}\U{672C}\U{8A9E}"),        // 日本語
    LanguageOption("ko", "\U{D55C}\U{AD6D}\U{C5B4}"),        // 한국어
    LanguageOption("zh-CN", "\U{7B80}\U{4F53}\U{4E2D}\U{6587}"), // 简体中文
    LanguageOption("zh-TW", "\U{7E41}\U{9AD4}\U{4E2D}\U{6587}")  // 繁體中文
  ]

  /** A character of the CJK Unified Ideographs block, U+4E00 to U+9FFF. */
  predicate IsHan(c: char)
    ensures IsHan(c) ==> c as int > 255
  {
    '\U{4E00}' <= c <= '\U{9FFF}'
  }

  /** A Latin-1 capital letter: `A`-`Z`, or `À`-`Þ` other than `×`. */
  predicate IsCapital(c: char)
  {
    'A' <= c <= 'Z' || ('\U{00C0}' <= c <= '\U{00DE}' && c != '\U{00D7}')
  }

  /** Python's `str.lower` on a character with code point at most 255. */
  function Lower(c: char): (r: char)
    requires c as int <= 255
    ensures r as int <= 255 && !IsCapital(r)
    ensures IsCapital(c) ==> r as int == c as int + 0x20
    ensures !IsCapital(c) ==> r == c
  {
    if IsCapital(c) then (c as int + 0x20) as char else c
  }

  /** `get_sort_key`: the key of a display name. A character above 255 in
      the Han block is replaced by its pinyin reading; `pinyin` returns
      `None` when the reading cannot be had (any exception), and then, as
      for any other character above 255, the character itself is the key.
      A character up to 255 is lowered. */
  function SortKey(name: DisplayName, pinyin: char -> Option<string>): (k: string)
    ensures IsHan(name[0]) && pinyin(name[0]).Some? ==> k == pinyin(name[0]).value
    ensures name[0] as int <= 255 ==> k == [Lower(name[0])]
    ensures name[0] as int > 255 && !IsHan(name[0]) ==> k == [name[0]]
    ensures IsHan(name[0]) && pinyin(name[0]).None? ==> k == [name[0]]
    ensures !IsHan(name[0]) || pinyin(name[0]).None? ==>
              |k| == 1 && (k[0] as int <= 255 <==> name[0] as int <= 255) && !IsCapital(k[0])
  {
    var c := name[0];
    if c as int > 255 then
      if IsHan(c) then
        match pinyin(c)
        case Some(reading) => reading
        case None => [c]
      else [c]
    else [Lower(c)]
  }

  /** The key function handed to the sort. */
  function OptionKey(pinyin: char -> Option<string>): (key: LanguageOption -> string)
  {
    (o: LanguageOption) => SortKey(o.displayName, pinyin)
  }

  /** `LANGUAGE_OPTIONS.sort(key=get_sort_key)`: a stable sort by key. */
  function SortOptions(opts: seq<LanguageOption>, pinyin: char -> Option<string>): (r: seq<LanguageOption>)
    ensures |r| == |opts|
  {
    SortBy(opts, OptionKey(pinyin))
  }

  /** What the key sees of each listed entry: English starts in Latin-1;
      日本語, 简体中文 and 繁體中文 start in the Han block; 한국어 starts
      above 255 outside it. */
  lemma CatalogFirstCharacters()
    ensures |Catalog| == 5
    ensures Catalog[0].displayName[0] as int <= 255
    ensures IsHan(Catalog[1].displayName[0]) && IsHan(Catalog[3].displayName[0]) && IsHan(Catalog[4].displayName[0])
    ensures Catalog[2].displayName[0] as int > 255 && !IsHan(Catalog[2].displayName[0])
  {
  }

  // ---------------------------------------------------------------------
  // The key

  /** Only the first character matters. */
  lemma SortKeyReadsFirstCharacter(a: DisplayName, b: DisplayName, pinyin: char -> Option<string>)
    requires a[0] == b[0]
    ensures SortKey(a, pinyin) == SortKey(b, pinyin)
  {
  }

  /** Latin-1 names sort regardless of case. */
  lemma SortKeyIgnoresCase(a: DisplayName, b: DisplayName, pinyin: char -> Option<string>)
    requires a[0] as int <= 255 && b[0] as int <= 255
    ensures SortKey(a, pinyin) == SortKey(b, pinyin) <==> Lower(a[0]) == Lower(b[0])
  {
  }

  /** The key of a Latin-1 name is a single character below every character
      above 255, so such a name precedes every name whose key is its own
      first character (a non-Han name, or a Han name without a reading). */
  lemma Latin1NamesComeFirst(a: DisplayName, b: DisplayName, pinyin: char -> Option<string>)
    requires a[0] as int <= 255 && b[0] as int > 255
    requires !IsHan(b[0]) || pinyin(b[0]).None?
    ensures LexLe(SortKey(a, pinyin), SortKey(b, pinyin))
    ensures !LexLe(SortKey(b, pinyin), SortKey(a, pinyin))
  {
    var ka, kb := SortKey(a, pinyin), SortKey(b, pinyin);
    assert ka == [Lower(a[0])] && kb == [b[0]];
    assert ka[0] < kb[0];
  }

  /** With no reading available, a Han name sorts by its first character. */
  lemma MissingReadingFallsBack(name: DisplayName, pinyin: char -> Option<string>)
    requires IsHan(name[0]) && pinyin(name[0]).None?
    ensures SortKey(name, pinyin) == [name[0]]
  {
  }

  // ---------------------------------------------------------------------
  // The sort

  /** The sorted options are in key order, every key keeps its options in
      their listed order, and nothing is added or lost. */
  lemma SortOptionsIsStableSort(opts: seq<LanguageOption>, pinyin: char -> Option<string>)
    ensures SortedBy(SortOptions(opts, pinyin), OptionKey(pinyin))
    ensures SameOrderWithinKeys(SortOptions(opts, pinyin), opts, OptionKey(pinyin))
    ensures multiset(SortOptions(opts, pinyin)) == multiset(opts)
  {
    SortByIsSorted(opts, OptionKey(pinyin));
    SortByIsStable(opts, OptionKey(pinyin));
    SortByPermutes(opts, OptionKey(pinyin));
  }

  /** Any order that is sorted by key and stable is the one computed here. */
  lemma SortOptionsIsUnique(opts: seq<LanguageOption>, t: seq<LanguageOption>, pinyin: char -> Option<string>)
    requires SortedBy(t, OptionKey(pinyin)) && SameOrderWithinKeys(t, opts, OptionKey(pinyin))
    ensures t == SortOptions(opts, pinyin)
  {
    SortByIsTheStableSort(opts, t, OptionKey(pinyin));
  }

  /** Sorting the sorted options again leaves them as they are. */
  lemma SortOptionsIdempotent(opts: seq<LanguageOption>, pinyin: char -> Option<string>)
    ensures SortOptions(SortOptions(opts, pinyin), pinyin) == SortOptions(opts, pinyin)
  {
    SortByIdempotent(opts, OptionKey(pinyin));
  }

  // ---------------------------------------------------------------------
  // The catalog's order

  /** With the readings "ri" for 日, "jian" for 简 and "fan" for 繁, the menu
      lists English, 繁體中文, 简体中文, 日本語, 한국어. */
  lemma CatalogOrderWithReadings(pinyin: char -> Option<string>)
    requires pinyin('\U{65E5}') == Some("ri")
    requires pinyin('\U{7B80}') == Some("jian")
    requires pinyin('\U{7E41}') == Some("fan")
    ensures SortOptions(Catalog, pinyin) == [Catalog[0], Catalog[4], Catalog[3], Catalog[1], Catalog[2]]
  {
    var key := OptionKey(pinyin);
    var en, ja, ko, cn, tw := Catalog[0], Catalog[1], Catalog[2], Catalog[3], Catalog[4];
    assert Catalog == [en, ja, ko, cn, tw];
    assert key(en) == "e" && key(ja) == "ri" && key(ko) == "\U{D55C}";
    assert key(cn) == "jian" && key(tw) == "fan";
    ReadingsOrder(en, ja, ko, cn, tw, key);
  }

  /** `a` sorts strictly before `b` because of their first characters. */
  predicate FirstBefore(a: string, b: string)
  {
    a != [] && b != [] && a[0] < b[0]
  }

  lemma FirstBeforeIsLess(a: string, b: string)
    requires FirstBefore(a, b)
    ensures LexLe(a, b) && !LexLe(b, a)
  {
  }

  /** The insertion steps behind CatalogOrderWithReadings, for any five
      entries whose keys compare the same way. */
  lemma ReadingsOrder<T>(en: T, ja: T, ko: T, cn: T, tw: T, key: T -> string)
    requires FirstBefore(key(en), key(tw)) && FirstBefore(key(tw), key(cn))
    requires FirstBefore(key(cn), key(ja)) && FirstBefore(key(ja), key(ko))
    ensures SortBy([en, ja, ko, cn, tw], key) == [en, tw, cn, ja, ko]
  {
    var s2 := [tw, cn];
    assert SortBy([cn, tw], key) == s2 by {
      SortByCons(cn, [tw], key);
      assert [tw][1..] == [];
      FirstBeforeIsLess(key(tw), key(cn));
      InsertBehind(cn, [tw], key);
    }
    var s3 := [tw, cn, ko];
    assert SortBy([ko, cn, tw], key) == s3 by {
      SortByCons(ko, [cn, tw], key);
      FirstBeforeIsLess(key(tw), key(ko));
      InsertBehind(ko, s2, key);
      assert s2[1..] == [cn] && [cn][1..] == [];
      FirstBeforeIsLess(key(cn), key(ko));
      InsertBehind(ko, [cn], key);
    }
    var s4 := [tw, cn, ja, ko];
    assert SortBy([ja, ko, cn, tw], key) == s4 by {
      SortByCons(ja, [ko, cn, tw], key);
      FirstBeforeIsLess(key(tw), key(ja));
      InsertBehind(ja, s3, key);
      assert s3[1..] == [cn, ko] && [cn, ko][1..] == [ko];
      FirstBeforeIsLess(key(cn), key(ja));
      InsertBehind(ja, [cn, ko], key);
      FirstBeforeIsLess(key(ja), key(ko));
      InsertInFront(ja, [ko], key);
    }
    assert SortBy([en, ja, ko, cn, tw], key) == [en] + s4 by {
      SortByCons(en, [ja, ko, cn, tw], key);
      FirstBeforeIsLess(key(en), key(tw));
      InsertInFront(en, s4, key);
      assert [en] + [ja, ko, cn, tw] == [en, ja, ko, cn, tw];
    }
  }

  /** When no reading can be had, every non-Latin name sorts by its first
      code point: English, 日本語, 简体中文, 繁體中文, 한국어. */
  lemma CatalogOrderWithoutReadings(pinyin: char -> Option<string>)
    requires forall c :: pinyin(c) == None
    ensures SortOptions(Catalog, pinyin) == [Catalog[0], Catalog[1], Catalog[3], Catalog[4], Catalog[2]]
  {
    var key := OptionKey(pinyin);
    var en, ja, ko, cn, tw := Catalog[0], Catalog[1], Catalog[2], Catalog[3], Catalog[4];
    assert Catalog == [en, ja, ko, cn, tw];
    assert key(en) == "e" && key(ja) == "\U{65E5}" && key(ko) == "\U{D55C}";
    assert key(cn) == "\U{7B80}" && key(tw) == "\U{7E41}";
    CodePointOrder(en, ja, ko, cn, tw, key);
  }

  /** The insertion steps behind CatalogOrderWithoutReadings. */
  lemma CodePointOrder<T>(en: T, ja: T, ko: T, cn: T, tw: T, key: T -> string)
    requires FirstBefore(key(en), key(ja)) && FirstBefore(key(ja), key(cn))
    requires FirstBefore(key(cn), key(tw)) && FirstBefore(key(tw), key(ko))
    ensures SortBy([en, ja, ko, cn, tw], key) == [en, ja, cn, tw, ko]
  {
    var s2 := [cn, tw];
    assert SortBy([cn, tw], key) == s2 by {
      SortByCons(cn, [tw], key);
      assert [tw][1..] == [];
      FirstBeforeIsLess(key(cn), key(tw));
      InsertInFront(cn, [tw], key);
    }
    var s3 := [cn, tw, ko];
    assert SortBy([ko, cn, tw], key) == s3 by {
      SortByCons(ko, [cn, tw], key);
      FirstBeforeIsLess(key(cn), key(ko));
      InsertBehind(ko, s2, key);
      assert s2[1..] == [tw] && [tw][1..] == [];
      FirstBeforeIsLess(key(tw), key(ko));
      InsertBehind(ko, [tw], key);
    }
    var s4 := [ja, cn, tw, ko];
    assert SortBy([ja, ko, cn, tw], key) == s4 by {
      SortByCons(ja, [ko, cn, tw], key);
      FirstBeforeIsLess(key(ja), key(cn));
      InsertInFront(ja, s3, key);
    }
    assert SortBy([en, ja, ko, cn, tw], key) == [en] + s4 by {
      SortByCons(en, [ja, ko, cn, tw], key);
      FirstBeforeIsLess(key(en), key(ja));
      InsertInFront(en, s4, key);
      assert [en] + [ja, ko, cn, tw] == [en, ja, ko, cn, tw];
    }
  }
}
