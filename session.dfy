/** The program's two pieces of module-level state: the language menu's
    entries, sorted once when the module loads, and the current language,
    which choosing a menu entry replaces (show_tree_gui.py:45-74, 204-211). */
module Session {
  import opened Wrappers
  import opened LanguageOptions
  import opened Translation

  class Globals {
    /** `LANGUAGE_OPTIONS`. */
    var languageOptions: seq<LanguageOption>
    /** `current_lang`. */
    var currentLang: string

    /** Loading the module: the catalog as listed, sorted in place by its
        keys, and the default language. `pinyin` stands for the reading
        library, `None` meaning that it raised. */
    constructor Load(pinyin: char -> Option<string>)
      ensures languageOptions == SortOptions(Catalog, pinyin)
      ensures currentLang == DefaultLanguage
    {
      languageOptions := Catalog;
      currentLang := DefaultLanguage;
      new;
      SortLanguageOptions(pinyin);
    }

    /** `LANGUAGE_OPTIONS.sort(key=get_sort_key)`: the same entries, now in
        key order and stable; the current language is untouched. */
    method SortLanguageOptions(pinyin: char -> Option<string>)
      modifies this
      ensures languageOptions == SortOptions(old(languageOptions), pinyin)
      ensures currentLang == old(currentLang)
    {
      languageOptions := SortOptions(languageOptions, pinyin);
    }

    /** `switch_language(lang)`: afterwards `lang` is current. `changed`
        reports whether the interface is refreshed, which happens only
        when `lang` differs from the language in effect. */
    method SwitchLanguage(lang: string) returns (changed: bool)
      modifies this
      ensures changed <==> old(currentLang) != lang
      ensures currentLang == lang
      ensures languageOptions == old(languageOptions)
    {
      changed := currentLang != lang;
      if changed {
        currentLang := lang;
      }
    }

    /** `tr(key)` under the current language. */
    function Translate(key: string): (r: Option<string>)
      reads this
      ensures r.None? <==> currentLang !in Lang
    {
      Tr(Lang, currentLang, key)
    }
  }
}
