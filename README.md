# Directory tree viewer: a verified model of its core

`show_tree_gui.py` is a desktop tool that prints a directory as an indented
text listing. Each directory is printed as `name/` and each file as `name`.
Every nesting level adds the four-dot indent `....`, children are listed in
ascending name order, and a directory that cannot be read shows a
`[Permission Denied]` line in place of its children. The tool also keeps a
language menu whose five entries are sorted by a key taken from the first
character of each display name. Interface texts are looked up per language.
When a listing is saved, the tool offers a default file name.

This project models those parts in Dafny and proves what they promise:

- `lex_order.dfy` — Python's `str` ordering: code point by code point, with a proper prefix first. Proved to be a total order and equal to the textbook definition.
- `stable_sort.dfy` — Python's `sorted` and `list.sort` with a string key: a stable insertion sort. It is proved sorted, a permutation, stable and idempotent. It is also proved to be the only sequence with those properties, so any stable sort gives the same result.
- `directory_tree.dfy` — the directory snapshot as a datatype and `generate_tree` as a method with the source's accumulator loop. The method is proved equal to a recursive specification of the listing, and the listing's format, order, line count and error marker are proved about that specification.
- `language_options.dfy` — `get_sort_key`, the sort of the language catalog, and the catalog's resulting order.
- `translation.dfy` — `tr` and the default file name of a saved listing.
- `wrappers.dfy` — the `Option` type, standing for a lookup that raises or a library call that fails.
- `session.dfy` — the module-level state `LANGUAGE_OPTIONS` and `current_lang`, with the load-time sort and `switch_language`.

The file system is a `Node` value:

- `File(name)` is any entry for which `os.path.isdir` answers false (show_tree_gui.py:253): a regular file, but also a broken symbolic link or a subdirectory that cannot be examined because its parent lacks search permission. Each prints without a `/`.
- `Dir(name, children)` is a readable directory; `children` are its entries in listing order.
- `DeniedDir(name)` is a directory whose listing raises `PermissionError`.

`os.listdir`, `os.path.isdir` and `os.path.join` are replaced by reading this value. The pinyin library becomes a parameter `pinyin: char -> Option<string>`, where `None` stands for any exception it raises.

The specification of a listing is `Outline(n)`, a sequence of `Line(depth, text)`. `Layout(lines, prefix)` prints each line as `prefix`, then `depth` indent units, then the text and a newline.

### Notes on the code

- The catalog's listed order is English, 日本語, 한국어, 简体中文, 繁體中文; sorting changes it:
  - 日 (U+65E5) lies in the Han block, so 日本語 is also keyed by its pinyin reading, "ri".
  - With the readings "ri", "jian" and "fan", the keys are `e`, `ri`, `한`, `jian` and `fan`. The order is therefore English, 繁體中文, 简体中文, 日本語, 한국어 (`CatalogOrderWithReadings`).
  - If the library yields no readings, the order is English, 日本語, 简体中文, 繁體中文, 한국어 (`CatalogOrderWithoutReadings`).
- The comment at show_tree_gui.py:247 speaks of four spaces; the code uses four dots, and so does the model.
- The translation table holds only Simplified Chinese (show_tree_gui.py:41 says the others were elided). The default language is `en`, so `tr` raises `KeyError` under the default language (`DefaultLanguageHasNoTable`).

## Model

| member | source | states |
|---|---|---|
| DirectoryTree.Layout | show_tree_gui.py:246-260 | Printing writes each line as prefix, indent units, text and newline, so the text has at least one character per line. |
| DirectoryTree.GenerateTree | show_tree_gui.py:236-261 | The accumulated text equals `Layout(Outline(dir), prefix)`: the header, then each child in sorted order (a file's line or the recursive listing at `prefix + "...."`), or the marker line when the listing is denied. |
| DirectoryTree.Outline | show_tree_gui.py:246-260 | A listing is never empty, and its first line is the entry's own label at depth 0. |
| DirectoryTree.OutlineNestsDeeper | show_tree_gui.py:246-258 | Every line of a listing after the first lies at depth one or more. |
| DirectoryTree.EntriesNestDeeper | show_tree_gui.py:251-258 | Every line of the children's blocks lies at depth one or more. |
| DirectoryTree.Entries | show_tree_gui.py:251-258 | Each child contributes at least one line. |
| DirectoryTree.SortByName | show_tree_gui.py:251 | `sorted(os.listdir(...))` yields only entries of the directory. |
| DirectoryTree.ListingStartsWithHeader | show_tree_gui.py:246 | The listing of a directory begins with `prefix + name + "/\n"`. |
| DirectoryTree.FileLayout | show_tree_gui.py:257-258 | A file child prints as `prefix + name + "\n"`. |
| DirectoryTree.DeniedDirLayout | show_tree_gui.py:246-260 | An unreadable directory prints its own line, then exactly `prefix + "....[Permission Denied]\n"`, and nothing else. |
| DirectoryTree.DirLayout | show_tree_gui.py:246-258 | A readable directory prints its header followed by its sorted children's blocks. |
| DirectoryTree.EntriesStep | show_tree_gui.py:251-258 | The next child's block, printed at `prefix + "...."`, comes right before the remaining children's blocks. |
| DirectoryTree.AppendChild | show_tree_gui.py:251-258 | One turn of the loop keeps the accumulated text followed by the remaining children's text equal to the whole listing. |
| DirectoryTree.LayoutAppend | show_tree_gui.py:255-258 | Printing concatenated lines is concatenating their printed texts. |
| DirectoryTree.LayoutShift | show_tree_gui.py:247-255 | Printing lines one level deeper equals printing them with one more `....` of prefix. |
| DirectoryTree.EmptyDirLayout | show_tree_gui.py:246-258 | An empty directory lists as exactly one line. |
| DirectoryTree.OutlineLineCount | show_tree_gui.py:246-261 | A listing has `LineCount(n)` lines: a file 1, a denied directory 2, a directory 1 plus its files plus its subdirectories' counts. |
| DirectoryTree.EntriesLineCount | show_tree_gui.py:251-258 | The children's blocks take as many lines as the children count for together. |
| DirectoryTree.SortKeepsLineCount | show_tree_gui.py:251 | Sorting the children does not change their total line count. |
| DirectoryTree.ListingNewlineCount | show_tree_gui.py:246-261 | When no name holds a newline, the printed text holds exactly `LineCount(dir)` newlines: one per line, each at the line's end. |
| DirectoryTree.EntriesSplitAt | show_tree_gui.py:251-258 | The i-th sorted child's whole block lies between the blocks of the children before it and those after it. |
| DirectoryTree.EntriesTopLevel | show_tree_gui.py:251-258 | The depth-1 lines of the children's blocks are exactly the children's labels, in order. |
| DirectoryTree.BlockTopLevel | show_tree_gui.py:251-258 | A child's block, one level down, shows only that child at that level. |
| DirectoryTree.ChildLinesSortedByName | show_tree_gui.py:251-260 | The lines one level below a directory are all of its children, each once, ascending by name, with equal names in listing order; a denied sibling does not stop later siblings. |
| DirectoryTree.DotsLeading | show_tree_gui.py:247-258 | `k` indent units are `4k` dots, and a line at depth `k` starts with exactly `4k` dots before its text. |
| DirectoryTree.ParseLine | show_tree_gui.py:247 | Reading a printed line back splits it into `4·depth` indent characters and the text. |
| DirectoryTree.ParseLineInvertsIndent | show_tree_gui.py:247-258 | Depth and text can be recovered from a printed line whose text does not itself start with four dots. |
| DirectoryTree.DotsCommute | show_tree_gui.py:247 | Adding one indent unit after the others gives the same text as adding it before them. |
| DirectoryTree.IndentIsAmbiguousForDottedNames | show_tree_gui.py:247-258 | At every depth, a name starting with `....` prints exactly like that name without the dots one level deeper, and the line reads back as the deeper one. |
| DirectoryTree.EntriesLayout | show_tree_gui.py:251-258 | The children's text is each sorted child's listing at `prefix + "...."`, concatenated. |
| DirectoryTree.ExampleFlatDirectory | show_tree_gui.py:246-258 | Three files listed out of order print as the root line and then the three files one level in, ascending. |
| DirectoryTree.ExampleNestedDirectory | show_tree_gui.py:246-258 | A file two levels down is printed after eight dots. |
| DirectoryTree.SingleChildLayout | show_tree_gui.py:246-258 | A directory with one entry prints its line and then that entry's listing one level in. |
| DirectoryTree.ExampleDeniedSubdirectory | show_tree_gui.py:249-260 | An unreadable subdirectory shows the marker beneath it, and the sibling after it is still listed. |
| LexOrder.LexLe | show_tree_gui.py:251 | Python's `str` comparison: a prefix is at most the longer string, and a non-empty string at most another starts with a code point no larger. |
| LexOrder.LexLeIsTextbookOrder | show_tree_gui.py:251 | String comparison holds exactly when `a` is a prefix of `b` or the first differing code point is smaller in `a`. |
| LexOrder.LexLeReflexive | show_tree_gui.py:251 | Every string is at most itself. |
| LexOrder.LexLeAntisymmetric | show_tree_gui.py:251 | Two strings each at most the other are equal. |
| LexOrder.LexLeTransitive | show_tree_gui.py:251 | The string order is transitive. |
| LexOrder.LexLeTotal | show_tree_gui.py:251 | Any two strings are comparable. |
| StableSort.SortBy | show_tree_gui.py:71 | Python's stable sort by key keeps the number of elements; its order, stability and permutation are stated by the lemmas below. |
| StableSort.SortByIsSorted | show_tree_gui.py:71 | The sorted sequence is non-decreasing by key. |
| StableSort.SortByPermutes | show_tree_gui.py:71 | The sorted sequence is a permutation of the input. |
| StableSort.SortByIsStable | show_tree_gui.py:71 | Elements with equal keys keep their relative order. |
| StableSort.SortByOfSorted | show_tree_gui.py:71 | A sequence already sorted by key is left unchanged. |
| StableSort.SortByIdempotent | show_tree_gui.py:71 | Sorting twice gives the same result as sorting once. |
| StableSort.SortByIsTheStableSort | show_tree_gui.py:71 | Any sequence sorted by key that keeps each key's elements in input order is the computed sort. |
| StableSort.InsertKeepsSorted | show_tree_gui.py:71 | Inserting into a sorted sequence keeps it sorted. |
| StableSort.InsertWithKey | show_tree_gui.py:71 | Inserting puts the new element ahead of every element with its key and leaves other keys alone. |
| LanguageOptions.Lower | show_tree_gui.py:67 | `str.lower` on a Latin-1 character: a capital moves up by 0x20, anything else stays, and no capital remains. |
| LanguageOptions.IsHan | show_tree_gui.py:60 | The range test for Chinese characters, U+4E00 to U+9FFF; every such character lies above 255, so the test is reached only inside the branch of line 58. |
| LanguageOptions.CatalogFirstCharacters | show_tree_gui.py:45-51 | The listed menu has five entries; English starts in Latin-1, 日本語, 简体中文 and 繁體中文 start in the Han block, 한국어 starts above 255 outside it. |
| LanguageOptions.SortKey | show_tree_gui.py:55-67 | A first character up to 255 gives its lowercase; one above 255 outside the Han block gives itself; a Han character gives its reading, or itself when the reading raises. Apart from a reading, the key is one character, never a capital, Latin-1 exactly when the name's first character is. |
| LanguageOptions.SortKeyReadsFirstCharacter | show_tree_gui.py:57 | Names with the same first character get the same key. |
| LanguageOptions.SortKeyIgnoresCase | show_tree_gui.py:66-67 | Latin-1 names get the same key exactly when their first characters lower to the same character. |
| LanguageOptions.Latin1NamesComeFirst | show_tree_gui.py:58-67 | A Latin-1 name's key is strictly below the key of a name keyed by its own first character above 255. |
| LanguageOptions.MissingReadingFallsBack | show_tree_gui.py:59-65 | When the reading raises, a Han name is keyed by its first character. |
| LanguageOptions.SortOptions | show_tree_gui.py:71 | `LANGUAGE_OPTIONS.sort(key=get_sort_key)` keeps the number of options; order, stability and permutation are proved by the next three lemmas. |
| LanguageOptions.SortOptionsIsStableSort | show_tree_gui.py:71 | The sorted options are in key order, stable and a permutation of the input. |
| LanguageOptions.SortOptionsIsUnique | show_tree_gui.py:71 | Any stable order by key is the computed one. |
| LanguageOptions.SortOptionsIdempotent | show_tree_gui.py:71 | Sorting the sorted options again changes nothing. |
| LanguageOptions.CatalogOrderWithReadings | show_tree_gui.py:45-71 | With readings ri/jian/fan the menu is English, 繁體中文, 简体中文, 日本語, 한국어. |
| LanguageOptions.CatalogOrderWithoutReadings | show_tree_gui.py:45-71 | With no readings the menu is English, 日本語, 简体中文, 繁體中文, 한국어. |
| Translation.Tr | show_tree_gui.py:77-79 | The lookup fails exactly when the language has no table; otherwise it gives the table's text for the key, or the key itself. |
| Translation.TrFallsBackToKey | show_tree_gui.py:79 | A key without a text comes back unchanged. |
| Translation.DefaultLanguageHasNoTable | show_tree_gui.py:74-79 | With the table as shipped, every lookup under the default language `en` raises `KeyError`. |
| Translation.MenuLanguagesWithoutTable | show_tree_gui.py:16-51 | `LANG` holds a table only for Simplified Chinese, so after choosing any other menu language every lookup raises `KeyError`. |
| Translation.ChineseLookups | show_tree_gui.py:77-79 | In Simplified Chinese the title is translated and an unknown key passes through. |
| Translation.DefaultFileName | show_tree_gui.py:292-293 | A non-empty base name is followed by exactly `_tree.md` for a Markdown save or `_tree.txt` for a text save, and nothing else; an empty one gives exactly `directory_tree`. |
| Translation.DefaultFileNameExtension | show_tree_gui.py:293 | The name ends in `.md` exactly for a Markdown save from a named directory, and in `.txt` exactly for a text save from one. |
| Translation.DefaultFileNameDeterminesInputs | show_tree_gui.py:293 | Two saves get the same name exactly when their base names are equal and, unless the base name is empty, their formats are too. |
| Session.Globals.Load | show_tree_gui.py:45-74 | At load time the options are the catalog sorted by key, and the current language is `en`. |
| Session.Globals.SortLanguageOptions | show_tree_gui.py:71 | The options are replaced by their stable sort by key, and nothing else changes. |
| Session.Globals.SwitchLanguage | show_tree_gui.py:204-211 | The requested language becomes current, and the interface is refreshed exactly when it differs from the previous one. |
| Session.Globals.Translate | show_tree_gui.py:77-79 | A lookup under the current language fails exactly when that language has no table. |

## Left out

- The tkinter interface is not modelled: windows, menus, buttons, message boxes, the widget refresh in `_update_widget_texts`, the About box and icon loading (show_tree_gui.py:86-228, 317-368). A changed language is reported by `SwitchLanguage`'s result in place of the refresh.
- The file system is a finite `Node` value, so the model does not cover:
  - symbolic links, including cycles;
  - entries that change while being listed;
  - `os.path.basename` and `os.path.join`;
  - the `strip()` of the path field.
- Errors other than `PermissionError` from listing are not modelled; the source lets them propagate to the `except Exception` in `display_tree`. `DeniedDir` stands for exactly the directories whose listing raises `PermissionError`.
- GenerateTree: requires a directory, because the source reaches it only after `os.path.isdir` (show_tree_gui.py:268) or for a child that is a directory.
- The pinyin library is not modelled; it is the parameter `pinyin`. The concrete catalog orders are proved for named readings of 日, 简 and 繁, and for no readings at all.
- Empty display names are excluded by the type `DisplayName`. In the source they would raise `IndexError` at load time; the catalog has none.
- The translation tables for English, Japanese, Korean and Traditional Chinese are not in the file (show_tree_gui.py:41), so `Lang` holds Simplified Chinese only.
- Saving, copying and clearing are not modelled beyond the default file name: the file dialog, writing the file, the clipboard and the empty-content warning (show_tree_gui.py:279-316) are I/O.
- Recursion depth: `generate_tree` calls itself once per level, so past Python's recursion limit (about 1000 levels) it raises `RecursionError`, which reaches `display_tree`. The model's recursion and `GenerateTree` have no depth bound and do not model that error.
- Undecodable file names: `os.listdir` returns them with lone surrogate code points, which a Dafny `char` cannot hold, so such names and their place in the sort are not represented.
- ListingNewlineCount: holds only when no name contains a newline, which real file names may contain.
