/** Looking up interface texts and choosing the default name of a saved
    listing (show_tree_gui.py:16-42, 77-79, 290-293). */
module Translation {
  import opened Wrappers
  import opened LanguageOptions

  /** One language's texts by key. */
  type Table = map<string, string>

  /** The Simplified Chinese texts; the module's table holds no other
      language. */
  const ZhCN: Table :=
    map[
      "title" := "目录结构查看器",
      "label" := "目录路径：",
      "generate" := "生成",
      "save_txt" := "保存为文本",
      "save_md" := "保存为Markdown",
      "choose_dir" := "浏览...",
      "error" := "错误",
      "invalid_path" := "目录路径无效或不存在",
      "empty" := "没有可保存的目录结构",
      "save_success" := "目录结构已保存到：\n{}",
      "save_fail" := "保存失败",
      "copy" := "复制内容",
      "copy_success" := "内容已复制！",
      "copy_empty" := "没有内容可复制",
      "clear" := "清空内容",
      "clear_success" := "内容已清空",
      "options_menu" := "选项",
      "language_menu" := "语言",
      "about" := "关于",
      "about_title" := "关于目录结构查看器",
      "about_content" := "目录结构查看器 v1.0\n\nCopyright © 2025 Ryan Joo\n\n一款简单易用的目录结构生成工具",
      "empty_filename" := "请输入文件名"
    ]

  /** Every language's table, by language code. */
  const Lang: map<string, Table> := map["zh-CN" := ZhCN]

  /** The language in effect when the program starts. */
  const DefaultLanguage := "en"

  /** `tr(key)`: the current language's text for `key`, or `key` itself
      when that table has no entry for it. Looking up a language that has
      no table raises `KeyError`, which is `None` here. */
  function Tr(lang: map<string, Table>, current: string, key: string): (r: Option<string>)
    ensures r.None? <==> current !in lang
    ensures r.Some? ==> r.value == key || r.value in lang[current].Values
    ensures r.Some? && key in lang[current] ==> r.value == lang[current][key]
  {
    if current !in lang then None
    else if key in lang[current] then Some(lang[current][key])
    else Some(key)
  }

  /** A key without a text comes back unchanged. */
  lemma TrFallsBackToKey(lang: map<string, Table>, current: string, key: string)
    requires current in lang && key !in lang[current]
    ensures Tr(lang, current, key) == Some(key)
  {
  }

  /** Under the default language every lookup fails, since the table has
      no entry for it. */
  lemma DefaultLanguageHasNoTable(key: string)
    ensures Tr(Lang, DefaultLanguage, key) == None
  {
  }

  /** Of the five menu languages only Simplified Chinese has a table: a
      lookup after choosing any other one raises `KeyError`. */
  lemma MenuLanguagesWithoutTable(key: string)
    ensures forall o :: o in Catalog ==> (Tr(Lang, o.code, key).None? <==> o.code != "zh-CN")
  {
    assert Catalog[1].code != "zh-CN" && Catalog[2].code != "zh-CN" && Catalog[4].code != "zh-CN";
  }

  /** In Simplified Chinese the window title is translated and an unknown
      key passes through. */
  lemma ChineseLookups()
    ensures Tr(Lang, "zh-CN", "title") == Some("目录结构查看器")
    ensures Tr(Lang, "zh-CN", "missing") == Some("missing")
  {
    assert "missing" !in ZhCN;
  }

  /** The default file name offered when saving: the directory's base name
      followed by `_tree.md` or `_tree.txt`, or `directory_tree` when the
      base name is empty. */
  function DefaultFileName(baseName: string, asMd: bool): (r: string)
    ensures baseName != [] ==> |r| > |baseName| && r[..|baseName|] == baseName
    ensures baseName != [] ==> |r| == |baseName| + (if asMd then 8 else 9)
    ensures baseName != [] ==> EndsWith(r, if asMd then "_tree.md" else "_tree.txt")
    ensures baseName == [] ==> r == "directory_tree"
  {
    if baseName != [] then baseName + "_tree." + (if asMd then "md" else "txt")
    else "directory_tree"
  }

  predicate EndsWith(s: string, suffix: string)
  {
    |suffix| <= |s| && s[|s| - |suffix|..] == suffix
  }

  /** The offered name ends in `.md` exactly when saving as Markdown from a
      named directory, and in `.txt` exactly when saving as text from one. */
  lemma DefaultFileNameExtension(baseName: string, asMd: bool)
    ensures EndsWith(DefaultFileName(baseName, asMd), ".md") <==> asMd && baseName != []
    ensures EndsWith(DefaultFileName(baseName, asMd), ".txt") <==> !asMd && baseName != []
  {
    var r := DefaultFileName(baseName, asMd);
    if baseName != [] {
      var ext := if asMd then "md" else "txt";
      assert r == baseName + "_tree." + ext;
      assert r[|r| - 1] == ext[|ext| - 1];
      assert r[|r| - |ext| - 1..] == "." + ext;
    } else {
      assert r[|r| - 1] == 'e';
    }
  }

  /** Two saves offer the same name exactly when they start from the same
      base name and, unless that name is empty, in the same format. */
  lemma DefaultFileNameDeterminesInputs(b1: string, m1: bool, b2: string, m2: bool)
    ensures DefaultFileName(b1, m1) == DefaultFileName(b2, m2) <==> b1 == b2 && (b1 == [] || m1 == m2)
  {
    var r1, r2 := DefaultFileName(b1, m1), DefaultFileName(b2, m2);
    DefaultFileNameExtension(b1, m1);
    DefaultFileNameExtension(b2, m2);
    if r1 == r2 && b1 != [] && b2 != [] {
      var n := if m1 then 8 else 9;
      assert |r1| == |b1| + n && |r2| == |b2| + n;
      assert b1 == r1[..|b1|] && b2 == r2[..|b2|];
    }
  }
}
