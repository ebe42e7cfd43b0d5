/** The text listing of a directory that `DirectoryTreeApp.generate_tree`
    builds: one line per entry, depth first, children in name order, four
    dots of indentation per level, and a marker line for a directory whose
    listing is refused. The filesystem is a finite snapshot (`Node`) in place
    of `os.listdir` and `os.path.isdir`. */
module DirectoryTree {
  import opened LexOrder
  import opened StableSort

  /** One entry of a filesystem snapshot. A `Dir` holds its children in the
      order the operating system lists them; a `DeniedDir` is a directory
      whose listing raises `PermissionError`. */
  datatype Node =
    | File(name: string)
    | Dir(name: string, children: seq<Node>)
    | DeniedDir(name: string)

  /** One line of the listing before it is printed: how many indent units
      precede it, and its text. */
  datatype Line = Line(depth: nat, text: string)

  /** The indent unit added per nesting level. */
  const Indent: string := "...."

  /** The line printed in place of the children of an unreadable directory. */
  const PermissionDenied: string := "[Permission Denied]"

  /** The key `sorted` compares entries by: the entry's name, as
      `os.listdir` returns it. */
  function NameOf(n: Node): (name: string)
  {
    n.name
  }

  /** What an entry's own line shows: a directory's name carries a slash. */
  function Label(n: Node): (shown: string)
    ensures n.name <= shown
  {
    if n.File? then n.name else n.name + "/"
  }

  /** `sorted(os.listdir(dir_path))`: the children ascending by name. */
  function SortByName(entries: seq<Node>): (r: seq<Node>)
    ensures forall x :: x in r ==> x in entries
  {
    var r := SortBy(entries, NameOf);
    SortByPermutes(entries, NameOf);
    assert forall x :: x in r ==> x in multiset(entries);
    r
  }

  /** `depth` more indent units on every line. */
  function Shift(lines: seq<Line>): (r: seq<Line>)
    ensures |r| == |lines|
    ensures forall i :: 0 <= i < |r| ==> r[i] == Line(lines[i].depth + 1, lines[i].text)
  {
    seq(|lines|, i requires 0 <= i < |lines| => Line(lines[i].depth + 1, lines[i].text))
  }

  /** The lines listing `n`, with depths relative to `n`: the entry's own
      line, then (for a directory) each child's block in name order, or the
      permission marker one level down. */
  function Outline(n: Node): (lines: seq<Line>)
    ensures |lines| >= 1 && lines[0] == Line(0, Label(n))
    decreases n, 1
  {
    match n
    case File(name) => [Line(0, name)]
    case DeniedDir(name) => [Line(0, name + "/"), Line(1, PermissionDenied)]
    case Dir(name, children) =>
      [Line(0, name + "/")] + Entries(n, SortByName(children))
  }

  /** The blocks of `items`, children of `dir`, one level below `dir`. */
  function Entries(ghost dir: Node, items: seq<Node>): (lines: seq<Line>)
    requires dir.Dir? && forall x :: x in items ==> x in dir.children
    ensures |lines| >= |items|
    decreases dir, 0, |items|
  {
    if items == [] then []
    else
      assert items[0] in dir.children;
      Shift(Outline(items[0])) + Entries(dir, items[1..])
  }

  /** `k` indent units. */
  function Dots(k: nat): (dots: string)
  {
    if k == 0 then "" else Indent + Dots(k - 1)
  }

  /** The printed text: every line is `prefix`, its indent units, its text
      and a newline. */
  function Layout(lines: seq<Line>, prefix: string): (text: string)
    ensures |text| >= |lines|
  {
    if lines == [] then ""
    else prefix + Dots(lines[0].depth) + lines[0].text + "\n" + Layout(lines[1..], prefix)
  }

  /** `generate_tree(dir_path, prefix)`: the listing of a directory, built by
      appending to an accumulator while walking the sorted children. */
  method GenerateTree(dir: Node, prefix: string) returns (treeStr: string)
    requires !dir.File?
    ensures treeStr == Layout(Outline(dir), prefix)
    decreases dir
  {
    treeStr := prefix + dir.name + "/\n";
    var childPrefix := prefix + Indent;
    match dir {
      case DeniedDir(name) =>
        treeStr := treeStr + childPrefix + PermissionDenied + "\n";
        DeniedDirLayout(name, prefix);
      case Dir(name, children) =>
        var items := SortByName(children);
        DirLayout(name, children, prefix);
        var i := 0;
        while i < |items|
          invariant 0 <= i <= |items|
          invariant treeStr + Layout(Entries(dir, items[i..]), prefix) == Layout(Outline(dir), prefix)
        {
          var item := items[i];
          var piece;
          if item.File? {
            piece := childPrefix + item.name + "\n";
            FileLayout(item.name, childPrefix);
          } else {
            assert item in children;
            piece := GenerateTree(item, childPrefix);
          }
          AppendChild(dir, items, i, prefix, treeStr, piece);
          treeStr := treeStr + piece;
          i := i + 1;
        }
    }
  }

  /** One turn of the loop: appending the next child's text keeps the
      accumulated text a prefix of the whole listing. */
  lemma AppendChild(dir: Node, items: seq<Node>, i: nat, prefix: string, acc: string, piece: string)
    requires dir.Dir? && forall x :: x in items ==> x in dir.children
    requires i < |items|
    requires acc + Layout(Entries(dir, items[i..]), prefix) == Layout(Outline(dir), prefix)
    requires piece == Layout(Outline(items[i]), prefix + Indent)
    ensures (acc + piece) + Layout(Entries(dir, items[i + 1..]), prefix) == Layout(Outline(dir), prefix)
  {
    EntriesStep(dir, items, i, prefix);
    var rest := Layout(Entries(dir, items[i + 1..]), prefix);
    assert (acc + piece) + rest == acc + (piece + rest);
  }

  lemma FileLayout(name: string, prefix: string)
    ensures Layout(Outline(File(name)), prefix) == prefix + name + "\n"
  {
    assert Dots(0) == "";
  }

  /** An unreadable directory prints as its own line and the marker one
      indent unit further in; nothing else. */
  lemma DeniedDirLayout(name: string, prefix: string)
    ensures Layout(Outline(DeniedDir(name)), prefix)
         == prefix + name + "/\n" + (prefix + Indent) + PermissionDenied + "\n"
  {
    assert Dots(1) == Indent;
    var lines := Outline(DeniedDir(name));
    assert lines[1..][1..] == [];
    assert Layout(lines[1..], prefix) == prefix + Indent + PermissionDenied + "\n";
  }

  lemma DirLayout(name: string, children: seq<Node>, prefix: string)
    ensures Layout(Outline(Dir(name, children)), prefix)
         == prefix + name + "/\n" + Layout(Entries(Dir(name, children), SortByName(children)), prefix)
  {
    var lines := Outline(Dir(name, children));
    assert lines[1..] == Entries(Dir(name, children), SortByName(children));
    assert Dots(0) == "";
  }

  lemma EntriesStep(dir: Node, items: seq<Node>, i: nat, prefix: string)
    requires dir.Dir? && forall x :: x in items ==> x in dir.children
    requires i < |items|
    ensures Layout(Entries(dir, items[i..]), prefix)
         == Layout(Outline(items[i]), prefix + Indent) + Layout(Entries(dir, items[i + 1..]), prefix)
  {
    assert items[i..][1..] == items[i + 1..];
    LayoutAppend(Shift(Outline(items[i])), Entries(dir, items[i + 1..]), prefix);
    LayoutShift(Outline(items[i]), prefix);
  }

  lemma {:induction false} LayoutAppend(a: seq<Line>, b: seq<Line>, prefix: string)
    ensures Layout(a + b, prefix) == Layout(a, prefix) + Layout(b, prefix)
  {
    if a != [] {
      var first := prefix + Dots(a[0].depth) + a[0].text + "\n";
      var x, y, z := Layout(a[1..], prefix), Layout(b, prefix), Layout(a[1..] + b, prefix);
      assert a + b == [a[0]] + (a[1..] + b) && a == [a[0]] + a[1..];
      LayoutCons(a[0], a[1..] + b, prefix);
      LayoutCons(a[0], a[1..], prefix);
      assert z == x + y by { LayoutAppend(a[1..], b, prefix); }
      assert first + (x + y) == (first + x) + y;
    } else {
      assert a + b == b;
    }
  }

  /** Printing lines one level deeper is printing them after one more indent
      unit of prefix: the recursive call's `prefix + '....'`. */
  lemma {:induction false} LayoutShift(lines: seq<Line>, prefix: string)
    ensures Layout(Shift(lines), prefix) == Layout(lines, prefix + Indent)
  {
    if lines != [] {
      assert Shift(lines)[1..] == Shift(lines[1..]);
      LayoutShift(lines[1..], prefix);
    }
  }

  // ---------------------------------------------------------------------
  // Line counts

  /** Lines an entry takes, counted over the children in listing order:
      a file one, an unreadable directory two, a directory one plus its
      files plus the lines of its subdirectories. */
  function LineCount(n: Node): (count: nat)
    ensures count >= 1
  {
    match n
    case File(_) => 1
    case DeniedDir(_) => 2
    case Dir(_, children) => 1 + LineCountAll(children)
  }

  function LineCountAll(ns: seq<Node>): (count: nat)
    ensures count >= |ns|
  {
    if ns == [] then 0 else LineCount(ns[0]) + LineCountAll(ns[1..])
  }

  lemma {:induction false} LineCountAllAppend(a: seq<Node>, b: seq<Node>)
    ensures LineCountAll(a + b) == LineCountAll(a) + LineCountAll(b)
  {
    if a != [] {
      assert (a + b)[0] == a[0] && (a + b)[1..] == a[1..] + b;
      LineCountAllAppend(a[1..], b);
    } else {
      assert a + b == b;
    }
  }

  lemma {:induction false} InsertLineCount(x: Node, s: seq<Node>)
    ensures LineCountAll(Insert(x, s, NameOf)) == LineCount(x) + LineCountAll(s)
  {
    if s != [] && !LexLe(NameOf(x), NameOf(s[0])) {
      var r := Insert(x, s, NameOf);
      assert r[0] == s[0] && r[1..] == Insert(x, s[1..], NameOf);
      InsertLineCount(x, s[1..]);
    }
  }

  /** Sorting the children does not change how many lines they take. */
  lemma {:induction false} SortKeepsLineCount(ns: seq<Node>)
    ensures LineCountAll(SortByName(ns)) == LineCountAll(ns)
  {
    if ns != [] {
      SortKeepsLineCount(ns[1..]);
      InsertLineCount(ns[0], SortBy(ns[1..], NameOf));
    }
  }

  /** The listing of `n` has exactly `LineCount(n)` lines. */
  lemma {:induction false} OutlineLineCount(n: Node)
    ensures |Outline(n)| == LineCount(n)
    decreases n, 1
  {
    if n.Dir? {
      EntriesLineCount(n, SortByName(n.children));
      SortKeepsLineCount(n.children);
    }
  }

  lemma {:induction false} EntriesLineCount(dir: Node, items: seq<Node>)
    requires dir.Dir? && forall x :: x in items ==> x in dir.children
    ensures |Entries(dir, items)| == LineCountAll(items)
    decreases dir, 0, |items|
  {
    if items != [] {
      assert items[0] in dir.children;
      OutlineLineCount(items[0]);
      EntriesLineCount(dir, items[1..]);
    }
  }

  /** A directory's listing opens with its own line, ahead of every line of
      its children. */
  lemma ListingStartsWithHeader(dir: Node, prefix: string)
    requires !dir.File?
    ensures prefix + dir.name + "/\n" <= Layout(Outline(dir), prefix)
  {
    if dir.Dir? {
      DirLayout(dir.name, dir.children, prefix);
    } else {
      DeniedDirLayout(dir.name, prefix);
    }
  }

  /** An empty directory lists as its own line alone. */
  lemma EmptyDirLayout(name: string, prefix: string)
    ensures Layout(Outline(Dir(name, [])), prefix) == prefix + name + "/\n"
  {
    DirLayout(name, [], prefix);
  }

  // ---------------------------------------------------------------------
  // Order of the blocks

  /** The `i`-th child (in name order) has its whole block right after the
      blocks of the children before it and right before the next child's. */
  lemma {:induction false} EntriesSplitAt(dir: Node, items: seq<Node>, i: nat)
    requires dir.Dir? && forall x :: x in items ==> x in dir.children
    requires i < |items|
    ensures Entries(dir, items)
         == Entries(dir, items[..i]) + Shift(Outline(items[i])) + Entries(dir, items[i + 1..])
    decreases i
  {
    if i > 0 {
      var tail := items[1..];
      SplitSlices(items, i);
      var head := Shift(Outline(items[0]));
      var before := Entries(dir, tail[..i - 1]);
      var mid := Shift(Outline(items[i]));
      var after := Entries(dir, items[i + 1..]);
      EntriesSplitAt(dir, tail, i - 1);
      EntriesCons(dir, items);
      EntriesCons(dir, items[..i]);
      SeqAssoc3(head, before, mid, after);
    } else {
      assert items[..0] == [];
    }
  }

  /** How the slices of `items` around position `i` look from `items[1..]`. */
  lemma SplitSlices<T>(items: seq<T>, i: nat)
    requires 0 < i < |items|
    ensures items[1..][..i - 1] == items[..i][1..] && items[..i][0] == items[0]
    ensures items[1..][i - 1] == items[i] && items[1..][i..] == items[i + 1..]
  {
  }

  lemma SeqAssoc3<T>(a: seq<T>, b: seq<T>, c: seq<T>, d: seq<T>)
    ensures a + (b + c + d) == (a + b) + c + d
  {
  }

  lemma EntriesCons(dir: Node, items: seq<Node>)
    requires dir.Dir? && forall x :: x in items ==> x in dir.children
    requires items != []
    ensures Entries(dir, items) == Shift(Outline(items[0])) + Entries(dir, items[1..])
  {
  }

  /** The texts of the lines at depth `d`, in order. */
  function TextsAt(lines: seq<Line>, d: nat): (texts: seq<string>)
    ensures |texts| <= |lines|
  {
    if lines == [] then []
    else (if lines[0].depth == d then [lines[0].text] else []) + TextsAt(lines[1..], d)
  }

  function Labels(ns: seq<Node>): (r: seq<string>)
    ensures |r| == |ns| && forall i :: 0 <= i < |ns| ==> r[i] == Label(ns[i])
  {
    seq(|ns|, i requires 0 <= i < |ns| => Label(ns[i]))
  }

  lemma {:induction false} TextsAtAppend(a: seq<Line>, b: seq<Line>, d: nat)
    ensures TextsAt(a + b, d) == TextsAt(a, d) + TextsAt(b, d)
  {
    if a != [] {
      assert (a + b)[0] == a[0] && (a + b)[1..] == a[1..] + b;
      TextsAtAppend(a[1..], b, d);
    } else {
      assert a + b == b;
    }
  }

  lemma {:induction false} TextsAtShift(lines: seq<Line>, d: nat)
    ensures TextsAt(Shift(lines), d + 1) == TextsAt(lines, d)
  {
    if lines != [] {
      assert Shift(lines)[1..] == Shift(lines[1..]);
      TextsAtShift(lines[1..], d);
    }
  }

  lemma {:induction false} TextsAtDeeper(lines: seq<Line>, d: nat)
    requires forall i :: 0 <= i < |lines| ==> lines[i].depth > d
    ensures TextsAt(lines, d) == []
  {
    if lines != [] {
      TextsAtDeeper(lines[1..], d);
    }
  }

  /** Below its own first line, an entry's listing lies deeper. */
  lemma {:induction false} OutlineNestsDeeper(n: Node)
    ensures forall i :: 1 <= i < |Outline(n)| ==> Outline(n)[i].depth >= 1
    decreases n, 1
  {
    if n.Dir? {
      EntriesNestDeeper(n, SortByName(n.children));
    }
  }

  lemma {:induction false} EntriesNestDeeper(dir: Node, items: seq<Node>)
    requires dir.Dir? && forall x :: x in items ==> x in dir.children
    ensures forall i :: 0 <= i < |Entries(dir, items)| ==> Entries(dir, items)[i].depth >= 1
    decreases dir, 0, |items|
  {
    if items != [] {
      assert items[0] in dir.children;
      EntriesNestDeeper(dir, items[1..]);
      EntriesCons(dir, items);
    }
  }

  /** An entry's block, one level down, shows only the entry itself at
      that level. */
  lemma BlockTopLevel(n: Node)
    ensures TextsAt(Shift(Outline(n)), 1) == [Label(n)]
  {
    var block := Outline(n);
    OutlineNestsDeeper(n);
    TextsAtShift(block, 0);
    TextsAtDeeper(block[1..], 0);
    assert block == [block[0]] + block[1..];
    TextsAtAppend([block[0]], block[1..], 0);
  }

  lemma {:induction false} EntriesTopLevel(dir: Node, items: seq<Node>)
    requires dir.Dir? && forall x :: x in items ==> x in dir.children
    ensures TextsAt(Entries(dir, items), 1) == Labels(items)
    decreases |items|
  {
    if items != [] {
      EntriesCons(dir, items);
      TextsAtAppend(Shift(Outline(items[0])), Entries(dir, items[1..]), 1);
      BlockTopLevel(items[0]);
      EntriesTopLevel(dir, items[1..]);
      assert Labels(items) == [Label(items[0])] + Labels(items[1..]);
    }
  }

  /** The lines one level below a directory's own line are its children,
      every one of them, each shown once, ascending by name: an unreadable
      subdirectory among them does not stop its later siblings. */
  lemma ChildLinesSortedByName(name: string, children: seq<Node>)
    ensures TextsAt(Outline(Dir(name, children)), 1) == Labels(SortByName(children))
    ensures SortedBy(SortByName(children), NameOf)
    ensures SameOrderWithinKeys(SortByName(children), children, NameOf)
    ensures multiset(SortByName(children)) == multiset(children)
  {
    SortByIsSorted(children, NameOf);
    SortByIsStable(children, NameOf);
    SortByPermutes(children, NameOf);
    var dir := Dir(name, children);
    var lines := Outline(dir);
    assert lines == [lines[0]] + Entries(dir, SortByName(children));
    TextsAtAppend([lines[0]], Entries(dir, SortByName(children)), 1);
    EntriesTopLevel(dir, SortByName(children));
  }

  // ---------------------------------------------------------------------
  // Indentation

  /** How many dots a line starts with. */
  function LeadingDots(s: string): (r: nat)
    ensures r <= |s| && forall i :: 0 <= i < r ==> s[i] == '.'
    ensures r < |s| ==> s[r] != '.'
  {
    if s != [] && s[0] == '.' then 1 + LeadingDots(s[1..]) else 0
  }

  lemma {:induction false} DotsLeading(k: nat, text: string)
    ensures |Dots(k)| == 4 * k
    ensures LeadingDots(Dots(k) + text) == 4 * k + LeadingDots(text)
  {
    if k > 0 {
      DotsLeading(k - 1, text);
      var rest := Dots(k - 1) + text;
      assert Dots(k) + text == "." + ("." + ("." + ("." + rest)));
      OneMoreDot("." + ("." + ("." + rest)));
      OneMoreDot("." + ("." + rest));
      OneMoreDot("." + rest);
      OneMoreDot(rest);
    } else {
      assert Dots(k) + text == text;
    }
  }

  lemma OneMoreDot(s: string)
    ensures LeadingDots("." + s) == 1 + LeadingDots(s)
  {
    assert ("." + s)[1..] == s;
  }

  /** Reads a printed line (without its newline) back: its depth is the
      number of leading dots divided by four. */
  function ParseLine(line: string): (r: Line)
    ensures 4 * r.depth + |r.text| == |line|
  {
    var d := LeadingDots(line) / 4;
    Line(d, line[4 * d..])
  }

  /** A line at depth `k` starts with exactly `4 * k` dots of indentation,
      so its depth and text can be read back, unless the text itself starts
      with four or more dots. */
  lemma ParseLineInvertsIndent(line: Line)
    requires LeadingDots(line.text) < 4
    ensures ParseLine(Dots(line.depth) + line.text) == line
  {
    DotsLeading(line.depth, line.text);
    var s := Dots(line.depth) + line.text;
    assert s[4 * line.depth..] == line.text;
  }

  /** One indent unit can be put before or after the others. */
  lemma {:induction false} DotsCommute(k: nat)
    ensures Dots(k) + Indent == Indent + Dots(k)
  {
    if k > 0 {
      calc {
        Dots(k) + Indent;
        (Indent + Dots(k - 1)) + Indent;
        { DotsCommute(k - 1); }
        Indent + (Indent + Dots(k - 1));
        Indent + Dots(k);
      }
    }
  }

  /** The format cannot tell a name starting with four dots from one level
      more of nesting: at every depth the two print the same, and the
      line reads back as the deeper one. */
  lemma IndentIsAmbiguousForDottedNames(k: nat, name: string)
    ensures Dots(k) + (Indent + name) == Dots(k + 1) + name
    ensures LeadingDots(name) < 4 ==> ParseLine(Dots(k) + (Indent + name)) == Line(k + 1, name)
  {
    DottedNamePrintsDeeper(k, name);
    if LeadingDots(name) < 4 {
      ParseLineInvertsIndent(Line(k + 1, name));
    }
  }

  lemma DottedNamePrintsDeeper(k: nat, name: string)
    ensures Dots(k) + (Indent + name) == Dots(k + 1) + name
  {
    var d := Dots(k);
    assert d + Indent == Indent + d by { DotsCommute(k); }
    assert Dots(k + 1) == Indent + d;
    calc {
      d + (Indent + name);
      (d + Indent) + name;
      (Indent + d) + name;
    }
  }

  // ---------------------------------------------------------------------
  // Newlines in the printed text

  function CountNewlines(s: string): (count: nat)
    ensures count <= |s|
  {
    if s == [] then 0 else (if s[0] == '\n' then 1 else 0) + CountNewlines(s[1..])
  }

  lemma {:induction false} CountNewlinesAppend(a: string, b: string)
    ensures CountNewlines(a + b) == CountNewlines(a) + CountNewlines(b)
  {
    if a != [] {
      assert (a + b)[0] == a[0] && (a + b)[1..] == a[1..] + b;
      CountNewlinesAppend(a[1..], b);
    } else {
      assert a + b == b;
    }
  }

  lemma {:induction false} CountNewlinesNone(s: string)
    requires '\n' !in s
    ensures CountNewlines(s) == 0
  {
    if s != [] {
      CountNewlinesNone(s[1..]);
    }
  }

  lemma {:induction false} DotsHaveNoNewline(k: nat)
    ensures '\n' !in Dots(k)
  {
    if k > 0 {
      DotsHaveNoNewline(k - 1);
    }
  }

  /** Each line is printed with exactly one newline, at its end. */
  lemma {:induction false} LayoutNewlines(lines: seq<Line>, prefix: string)
    requires '\n' !in prefix
    requires forall i :: 0 <= i < |lines| ==> '\n' !in lines[i].text
    ensures CountNewlines(Layout(lines, prefix)) == |lines|
  {
    if lines != [] {
      var head := prefix + Dots(lines[0].depth) + lines[0].text;
      DotsHaveNoNewline(lines[0].depth);
      CountNewlinesNone(head);
      CountNewlinesAppend(head, "\n");
      CountNewlinesAppend(head + "\n", Layout(lines[1..], prefix));
      LayoutNewlines(lines[1..], prefix);
    }
  }

  /** No entry anywhere in the snapshot has a newline in its name. */
  predicate NoNewlineInNames(n: Node)
  {
    '\n' !in n.name &&
    (n.Dir? ==> forall i :: 0 <= i < |n.children| ==> NoNewlineInNames(n.children[i]))
  }

  lemma {:induction false} OutlineHasNoNewline(n: Node)
    requires NoNewlineInNames(n)
    ensures forall i :: 0 <= i < |Outline(n)| ==> '\n' !in Outline(n)[i].text
    decreases n, 1
  {
    if n.Dir? {
      EntriesHaveNoNewline(n, SortByName(n.children));
    }
  }

  lemma {:induction false} EntriesHaveNoNewline(dir: Node, items: seq<Node>)
    requires dir.Dir? && NoNewlineInNames(dir)
    requires forall x :: x in items ==> x in dir.children
    ensures forall i :: 0 <= i < |Entries(dir, items)| ==> '\n' !in Entries(dir, items)[i].text
    decreases dir, 0, |items|
  {
    if items != [] {
      assert items[0] in dir.children;
      OutlineHasNoNewline(items[0]);
      EntriesHaveNoNewline(dir, items[1..]);
    }
  }

  /** The text `generate_tree` returns has exactly one newline per entry
      line, so `LineCount(dir)` lines in all, when no name contains one. */
  lemma ListingNewlineCount(dir: Node, prefix: string)
    requires NoNewlineInNames(dir) && '\n' !in prefix
    ensures CountNewlines(Layout(Outline(dir), prefix)) == LineCount(dir)
  {
    OutlineHasNoNewline(dir);
    LayoutNewlines(Outline(dir), prefix);
    OutlineLineCount(dir);
  }

  // ---------------------------------------------------------------------
  // Worked listings

  /** The text of a directory whose sorted children are `items`: its line,
      then each child's text one indent unit in. */
  lemma {:induction false} EntriesLayout(dir: Node, items: seq<Node>, prefix: string)
    requires dir.Dir? && forall x :: x in items ==> x in dir.children
    ensures Layout(Entries(dir, items), prefix) == ChildTexts(items, prefix + Indent)
    decreases |items|
  {
    if items != [] {
      EntriesStep(dir, items, 0, prefix);
      assert items[0..] == items;
      EntriesLayout(dir, items[1..], prefix);
    }
  }

  function ChildTexts(items: seq<Node>, prefix: string): (text: string)
  {
    if items == [] then "" else Layout(Outline(items[0]), prefix) + ChildTexts(items[1..], prefix)
  }

  /** Three files listed out of order come out one level in, ascending. */
  lemma ExampleFlatDirectory(root: string, a: string, b: string, c: string)
    requires a != [] && b != [] && c != [] && a[0] < b[0] < c[0]
    ensures Outline(Dir(root, [File(c), File(a), File(b)]))
         == [Line(0, root + "/"), Line(1, a), Line(1, b), Line(1, c)]
    ensures Layout(Outline(Dir(root, [File(c), File(a), File(b)])), "")
         == root + "/\n" + ("...." + a + "\n" + ("...." + b + "\n" + ("...." + c + "\n")))
  {
    FlatSort(a, b, c);
    FlatListing(root, a, b, c);
    FlatText(root, a, b, c);
  }

  lemma FlatListing(root: string, a: string, b: string, c: string)
    requires SortByName([File(c), File(a), File(b)]) == [File(a), File(b), File(c)]
    ensures Outline(Dir(root, [File(c), File(a), File(b)]))
         == [Line(0, root + "/"), Line(1, a), Line(1, b), Line(1, c)]
  {
    var dir := Dir(root, [File(c), File(a), File(b)]);
    var items := [File(a), File(b), File(c)];
    var below := [Line(1, a), Line(1, b), Line(1, c)];
    assert Entries(dir, items) == below by {
      FileEntries(dir, items);
      assert seq(|items|, i requires 0 <= i < |items| => Line(1, items[i].name)) == below;
    }
    calc {
      Outline(dir);
      [Line(0, root + "/")] + Entries(dir, SortByName(dir.children));
      [Line(0, root + "/")] + below;
      [Line(0, root + "/"), Line(1, a), Line(1, b), Line(1, c)];
    }
  }

  /** Children that are all files contribute one line each, in order. */
  lemma {:induction false} FileEntries(dir: Node, items: seq<Node>)
    requires dir.Dir? && forall x :: x in items ==> x in dir.children
    requires forall i :: 0 <= i < |items| ==> items[i].File?
    ensures Entries(dir, items) == seq(|items|, i requires 0 <= i < |items| => Line(1, items[i].name))
    decreases |items|
  {
    if items != [] {
      FileEntries(dir, items[1..]);
      EntriesOfFile(dir, items);
    }
  }

  lemma FlatText(root: string, a: string, b: string, c: string)
    ensures Layout([Line(0, root + "/"), Line(1, a), Line(1, b), Line(1, c)], "")
         == root + "/\n" + ("...." + a + "\n" + ("...." + b + "\n" + ("...." + c + "\n")))
  {
    var lines := [Line(0, root + "/"), Line(1, a), Line(1, b), Line(1, c)];
    var names := [a, b, c];
    assert DotLines(names) == "...." + a + "\n" + ("...." + b + "\n" + ("...." + c + "\n")) by {
      assert names[1..] == [b, c] && names[1..][1..] == [c] && names[1..][1..][1..] == [];
      assert DotLines([c]) == "...." + c + "\n" + "";
    }
    var below := seq(3, i requires 0 <= i < 3 => Line(1, names[i]));
    assert lines == [Line(0, root + "/")] + below;
    LayoutCons(Line(0, root + "/"), below, "");
    LayoutOneLevel(names);
    assert Dots(0) == "" && "" + "" + (root + "/") + "\n" == root + "/\n";
  }

  /** A file child contributes one line, one level down. */
  lemma EntriesOfFile(dir: Node, items: seq<Node>)
    requires dir.Dir? && forall x :: x in items ==> x in dir.children
    requires items != [] && items[0].File?
    ensures Entries(dir, items) == [Line(1, items[0].name)] + Entries(dir, items[1..])
  {
  }

  function DotLines(names: seq<string>): (text: string)
  {
    if names == [] then "" else "...." + names[0] + "\n" + DotLines(names[1..])
  }

  lemma {:induction false} LayoutOneLevel(names: seq<string>)
    ensures Layout(seq(|names|, i requires 0 <= i < |names| => Line(1, names[i])), "") == DotLines(names)
  {
    if names != [] {
      var lines := seq(|names|, i requires 0 <= i < |names| => Line(1, names[i]));
      assert lines[1..] == seq(|names| - 1, i requires 0 <= i < |names| - 1 => Line(1, names[1..][i]));
      LayoutOneLevel(names[1..]);
      assert Dots(1) == "....";
      assert Layout(lines, "") == "" + "...." + names[0] + "\n" + Layout(lines[1..], "");
    }
  }

  lemma FlatSort(a: string, b: string, c: string)
    requires a != [] && b != [] && c != [] && a[0] < b[0] < c[0]
    ensures SortByName([File(c), File(a), File(b)]) == [File(a), File(b), File(c)]
  {
    var fa, fb, fc := File(a), File(b), File(c);
    assert [fc, fa, fb][1..] == [fa, fb] && [fa, fb][1..] == [fb];
    calc {
      SortBy([fb], NameOf);
      Insert(fb, [], NameOf);
      [fb];
    }
    calc {
      SortBy([fa, fb], NameOf);
      Insert(fa, SortBy([fb], NameOf), NameOf);
      Insert(fa, [fb], NameOf);
    == { InsertInFront(fa, [fb], NameOf); }
      [fa, fb];
    }
    calc {
      SortBy([fc, fa, fb], NameOf);
      Insert(fc, SortBy([fa, fb], NameOf), NameOf);
      Insert(fc, [fa, fb], NameOf);
    == { InsertBehind(fc, [fa, fb], NameOf); }
      [fa] + Insert(fc, [fb], NameOf);
    == { InsertBehind(fc, [fb], NameOf); assert [fb][1..] == []; }
      [fa] + ([fb] + Insert(fc, [], NameOf));
      [fa, fb, fc];
    }
  }

  lemma LayoutCons(line: Line, rest: seq<Line>, prefix: string)
    ensures Layout([line] + rest, prefix) == prefix + Dots(line.depth) + line.text + "\n" + Layout(rest, prefix)
  {
    assert ([line] + rest)[1..] == rest;
  }

  /** Indentation adds up: two levels down is eight dots. */
  lemma ExampleNestedDirectory(root: string, sub: string, leaf: string)
    ensures Layout(Outline(Dir(root, [Dir(sub, [File(leaf)])])), "")
         == root + "/\n" + "...." + sub + "/\n" + "........" + leaf + "\n"
  {
    var subDir := Dir(sub, [File(leaf)]);
    var subText := Indent + sub + "/\n" + (Indent + Indent + leaf + "\n");
    NestedSubdirectory(sub, leaf);
    SingleChildLayout(root, subDir);
    assert Indent + Indent == "........";
  }

  lemma NestedSubdirectory(sub: string, leaf: string)
    ensures Layout(Outline(Dir(sub, [File(leaf)])), Indent) == Indent + sub + "/\n" + (Indent + Indent + leaf + "\n")
  {
    var subDir := Dir(sub, [File(leaf)]);
    var leafText := Indent + Indent + leaf + "\n";
    assert [File(leaf)][1..] == [];
    assert SortByName([File(leaf)]) == [File(leaf)];
    DirLayout(sub, [File(leaf)], Indent);
    EntriesLayout(subDir, [File(leaf)], Indent);
    FileLayout(leaf, Indent + Indent);
    assert ChildTexts([File(leaf)], Indent + Indent) == leafText + "";
  }

  /** A directory holding one entry prints its own line, then the entry's
      listing one level in. */
  lemma SingleChildLayout(root: string, child: Node)
    ensures Layout(Outline(Dir(root, [child])), "") == root + "/\n" + Layout(Outline(child), Indent)
  {
    var dir := Dir(root, [child]);
    var text := Layout(Outline(child), Indent);
    SortSingleton(child);
    DirLayout(root, [child], "");
    assert Layout(Entries(dir, [child]), "") == text by {
      EntriesLayout(dir, [child], "");
      assert "" + Indent == Indent;
      ChildTextsSingle(child, Indent);
    }
    assert "" + root + "/\n" + text == root + "/\n" + text;
  }

  lemma SortSingleton(x: Node)
    ensures SortByName([x]) == [x]
  {
    assert [x][1..] == [];
  }

  lemma ChildTextsSingle(x: Node, prefix: string)
    ensures ChildTexts([x], prefix) == Layout(Outline(x), prefix)
  {
    assert [x][1..] == [];
    assert Layout(Outline(x), prefix) + "" == Layout(Outline(x), prefix);
  }

  /** An unreadable subdirectory shows the marker beneath it and its later
      sibling is still listed. */
  lemma ExampleDeniedSubdirectory(root: string, a: string, locked: string, z: string)
    requires a != [] && locked != [] && z != [] && a[0] < locked[0] < z[0]
    ensures Outline(Dir(root, [File(z), DeniedDir(locked), File(a)]))
         == [Line(0, root + "/"), Line(1, a), Line(1, locked + "/"), Line(2, PermissionDenied), Line(1, z)]
  {
    DeniedSort(a, locked, z);
    DeniedListing(root, a, locked, z);
  }

  lemma DeniedListing(root: string, a: string, locked: string, z: string)
    requires SortByName([File(z), DeniedDir(locked), File(a)]) == [File(a), DeniedDir(locked), File(z)]
    ensures Outline(Dir(root, [File(z), DeniedDir(locked), File(a)]))
         == [Line(0, root + "/"), Line(1, a), Line(1, locked + "/"), Line(2, PermissionDenied), Line(1, z)]
  {
    var dir := Dir(root, [File(z), DeniedDir(locked), File(a)]);
    var items := [File(a), DeniedDir(locked), File(z)];
    var below := [Line(1, a), Line(1, locked + "/"), Line(2, PermissionDenied), Line(1, z)];
    DeniedEntries(dir, a, locked, z);
    calc {
      Outline(dir);
      [Line(0, root + "/")] + Entries(dir, SortByName(dir.children));
      [Line(0, root + "/")] + Entries(dir, items);
      [Line(0, root + "/")] + below;
      { ConsFive(Line(0, root + "/"), below); }
      [Line(0, root + "/"), Line(1, a), Line(1, locked + "/"), Line(2, PermissionDenied), Line(1, z)];
    }
  }

  lemma ConsFive(x: Line, s: seq<Line>)
    requires |s| == 4
    ensures [x] + s == [x, s[0], s[1], s[2], s[3]]
  {
  }

  lemma DeniedSort(a: string, locked: string, z: string)
    requires a != [] && locked != [] && z != [] && a[0] < locked[0] < z[0]
    ensures SortByName([File(z), DeniedDir(locked), File(a)]) == [File(a), DeniedDir(locked), File(z)]
  {
    var fa, dl, fz := File(a), DeniedDir(locked), File(z);
    assert [fz, dl, fa][1..] == [dl, fa] && [dl, fa][1..] == [fa];
    calc {
      SortBy([fa], NameOf);
      Insert(fa, [], NameOf);
      [fa];
    }
    calc {
      SortBy([dl, fa], NameOf);
      Insert(dl, SortBy([fa], NameOf), NameOf);
      Insert(dl, [fa], NameOf);
    == { InsertBehind(dl, [fa], NameOf); assert [fa][1..] == []; }
      [fa] + Insert(dl, [], NameOf);
      [fa, dl];
    }
    calc {
      SortBy([fz, dl, fa], NameOf);
      Insert(fz, SortBy([dl, fa], NameOf), NameOf);
      Insert(fz, [fa, dl], NameOf);
    == { InsertBehind(fz, [fa, dl], NameOf); assert [fa, dl][1..] == [dl]; }
      [fa] + Insert(fz, [dl], NameOf);
    == { InsertBehind(fz, [dl], NameOf); assert [dl][1..] == []; }
      [fa] + ([dl] + Insert(fz, [], NameOf));
      [fa, dl, fz];
    }
  }

  lemma DeniedEntries(dir: Node, a: string, locked: string, z: string)
    requires dir.Dir? && File(a) in dir.children && DeniedDir(locked) in dir.children && File(z) in dir.children
    ensures Entries(dir, [File(a), DeniedDir(locked), File(z)])
         == [Line(1, a), Line(1, locked + "/"), Line(2, PermissionDenied), Line(1, z)]
  {
    var items := [File(a), DeniedDir(locked), File(z)];
    assert items[1..] == [DeniedDir(locked), File(z)] && items[1..][1..] == [File(z)];
    FileEntries(dir, [File(z)]);
    assert Shift(Outline(DeniedDir(locked))) == [Line(1, locked + "/"), Line(2, PermissionDenied)];
    EntriesCons(dir, items[1..]);
    EntriesOfFile(dir, items);
  }
}
