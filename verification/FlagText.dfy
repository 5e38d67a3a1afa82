/** The flag printers: a table of masks and names, and the text of a flag word. */
module FlagText {
  /** Names are single letters for route flags, words for interface and address flags. */
  datatype Flag<N> = Flag(mask: bv32, name: N)

  predicate Has(f: bv32, mask: bv32) {
    f & mask != 0
  }

  ghost function Selected<N>(f: bv32, table: seq<Flag<N>>): seq<N> {
    if table == [] then []
    else (if Has(f, table[0].mask) then [table[0].name] else []) + Selected(f, table[1..])
  }

  ghost function Join(names: seq<string>, sep: char): string {
    if names == [] then ""
    else if |names| == 1 then names[0]
    else names[0] + [sep] + Join(names[1..], sep)
  }

  /** A separator stands between two names, and nowhere else. */
  lemma JoinTwo(name: string, name': string, sep: char)
    ensures Join([name], sep) == name && Join([name, name'], sep) == name + [sep] + name'
  {
    assert [name, name'][1..] == [name'];
  }

  // ----- the text, name by name

  lemma {:induction false} SelectedSnoc<N>(f: bv32, table: seq<Flag<N>>, n: nat)
    requires n < |table|
    ensures Selected(f, table[..n + 1]) ==
      Selected(f, table[..n]) + if Has(f, table[n].mask) then [table[n].name] else []
  {
    hide Has;
    if n == 0 {
      assert table[..1][1..] == [];
    } else {
      assert table[..n + 1][1..] == table[1..][..n] && table[..n][1..] == table[1..][..n - 1];
      SelectedSnoc(f, table[1..], n - 1);
    }
  }

  /** Every name followed by a separator: what the loop has appended before the last one is trimmed. */
  ghost function Terminated(names: seq<string>, sep: char): string {
    if names == [] then "" else names[0] + [sep] + Terminated(names[1..], sep)
  }

  lemma {:induction false} TerminatedSnoc(names: seq<string>, name: string, sep: char)
    ensures Terminated(names + [name], sep) == Terminated(names, sep) + name + [sep]
  {
    if names == [] {
      assert ([] + [name])[1..] == [];
    } else {
      assert (names + [name])[1..] == names[1..] + [name];
      TerminatedSnoc(names[1..], name, sep);
    }
  }

  lemma {:induction false} TerminatedIsJoin(names: seq<string>, sep: char)
    ensures Terminated(names, sep) == if names == [] then "" else Join(names, sep) + [sep]
  {
    if |names| > 1 {
      TerminatedIsJoin(names[1..], sep);
      assert names[0] + [sep] + (Join(names[1..], sep) + [sep]) == names[0] + [sep] + Join(names[1..], sep) + [sep];
    }
  }

  lemma SelectedNone<N>(f: bv32)
    ensures Selected<N>(f, []) == []
  {
  }

  lemma JoinNone(sep: char)
    ensures Join([], sep) == ""
  {
  }

  // ----- reading the text back

  ghost predicate DistinctNames<N>(table: seq<Flag<N>>) {
    forall i, j :: 0 <= i < j < |table| ==> table[i].name != table[j].name
  }

  ghost predicate IsWord(name: string, sep: char) {
    name != "" && sep !in name
  }

  ghost predicate Words(table: seq<Flag<string>>, sep: char) {
    forall i :: 0 <= i < |table| ==> IsWord(table[i].name, sep)
  }

  lemma HasMeaning(f: bv32, mask: bv32)
    ensures Has(f, mask) <==> f & mask != 0
  {
  }

  lemma HasInTable<N>(f: bv32, table: seq<Flag<N>>)
    ensures forall i :: 0 <= i < |table| ==> (Has(f, table[i].mask) <==> f & table[i].mask != 0)
  {
    hide Has;
    forall i | 0 <= i < |table| ensures Has(f, table[i].mask) <==> f & table[i].mask != 0 {
      HasMeaning(f, table[i].mask);
    }
  }

  /** The two words agree on every mask of the table. */
  ghost predicate SameFlags<N>(f: bv32, g: bv32, table: seq<Flag<N>>) {
    forall i :: 0 <= i < |table| ==> Has(f, table[i].mask) == Has(g, table[i].mask)
  }

  lemma {:induction false} SelectedFrom<N(!new)>(f: bv32, table: seq<Flag<N>>, name: N)
    requires forall i :: 0 <= i < |table| ==> table[i].name != name
    ensures name !in Selected(f, table)
  {
    if table == [] {
    } else {
      SelectedFrom(f, table[1..], name);
    }
  }

  lemma SameFlagsMeaning<N>(f: bv32, g: bv32, table: seq<Flag<N>>)
    ensures SameFlags(f, g, table) <==>
      forall i :: 0 <= i < |table| ==> (f & table[i].mask != 0 <==> g & table[i].mask != 0)
  {
    hide Has;
    HasInTable(f, table);
    HasInTable(g, table);
  }

  lemma SameFlagsUnfold<N>(f: bv32, g: bv32, table: seq<Flag<N>>)
    requires table != []
    ensures SameFlags(f, g, table) <==> Has(f, table[0].mask) == Has(g, table[0].mask) && SameFlags(f, g, table[1..])
  {
    hide Has;
    assert table == [table[0]] + table[1..];
  }

  /** The first flag is told apart by its name, and so the rest is too. */
  lemma ConsCancels<N(!new)>(name: N, xs: seq<N>, ys: seq<N>)
    requires name !in xs && name !in ys
    ensures [name] + xs == [name] + ys <==> xs == ys
    ensures [name] + xs != ys && xs != [name] + ys
  {
    assert ([name] + xs)[1..] == xs && ([name] + ys)[1..] == ys;
    assert ([name] + xs)[0] == name && ([name] + ys)[0] == name;
  }

  /** The selected names determine the flags. */
  lemma {:induction false} SelectedDeterminesFlags<N(!new)>(f: bv32, g: bv32, table: seq<Flag<N>>)
    requires DistinctNames(table)
    ensures Selected(f, table) == Selected(g, table) <==> SameFlags(f, g, table)
  {
    hide Has;
    if table == [] {
    } else {
      hide SameFlags;
      var name, rest := table[0].name, table[1..];
      SelectedDeterminesFlags(f, g, rest);
      SameFlagsUnfold(f, g, table);
      SelectedFrom(f, rest, name);
      SelectedFrom(g, rest, name);
      ConsCancels(name, Selected(f, rest), Selected(g, rest));
      assert [] + Selected(f, rest) == Selected(f, rest) && [] + Selected(g, rest) == Selected(g, rest);
    }
  }

  /** Cuts the text at its separators. */
  ghost function Split(text: string, sep: char): (r: seq<string>)
    ensures r != []
  {
    if text == "" then [""]
    else
      var rest := Split(text[1..], sep);
      if text[0] == sep then [""] + rest else [[text[0]] + rest[0]] + rest[1..]
  }

  lemma {:induction false} SplitWord(name: string, sep: char)
    requires sep !in name
    ensures Split(name, sep) == [name]
  {
    if name == "" {
    } else {
      SplitWord(name[1..], sep);
      assert name == [name[0]] + name[1..];
    }
  }

  lemma {:induction false} SplitFirst(name: string, sep: char, text: string)
    requires sep !in name
    ensures Split(name + [sep] + text, sep) == [name] + Split(text, sep)
  {
    var whole := name + [sep] + text;
    if name == "" {
      assert whole[1..] == text;
    } else {
      assert whole[1..] == name[1..] + [sep] + text;
      SplitFirst(name[1..], sep, text);
      assert name == [name[0]] + name[1..];
      assert whole[0] == name[0];
    }
  }

  lemma {:induction false} SplitJoin(names: seq<string>, sep: char)
    requires forall name <- names :: sep !in name
    ensures names != [] ==> Split(Join(names, sep), sep) == names
  {
    if |names| == 1 {
      SplitWord(names[0], sep);
    } else if |names| > 1 {
      SplitJoin(names[1..], sep);
      SplitFirst(names[0], sep, Join(names[1..], sep));
    }
  }

  lemma {:induction false} SelectedWords(f: bv32, table: seq<Flag<string>>, sep: char)
    requires Words(table, sep)
    ensures forall name <- Selected(f, table) :: IsWord(name, sep)
  {
    if table == [] {
    } else {
      SelectedWords(f, table[1..], sep);
    }
  }

  lemma JoinDeterminesNames(names: seq<string>, names': seq<string>, sep: char)
    requires forall name <- names :: IsWord(name, sep)
    requires forall name <- names' :: IsWord(name, sep)
    requires Join(names, sep) == Join(names', sep)
    ensures names == names'
  {
    SplitJoin(names, sep);
    SplitJoin(names', sep);
    assert names != [] ==> IsWord(names[0], sep);
    assert names' != [] ==> IsWord(names'[0], sep);
  }

  // ----- which names are printed, and in which order

  lemma SelectedUnfold<N>(f: bv32, table: seq<Flag<N>>)
    requires table != []
    ensures Selected(f, table) ==
      if Has(f, table[0].mask) then [table[0].name] + Selected(f, table[1..]) else Selected(f, table[1..])
  {
    hide Has;
    assert [] + Selected(f, table[1..]) == Selected(f, table[1..]);
  }

  lemma {:induction false} SelectedHas<N(!new)>(f: bv32, table: seq<Flag<N>>, i: nat)
    requires DistinctNames(table) && i < |table|
    ensures table[i].name in Selected(f, table) <==> Has(f, table[i].mask)
  {
    hide Has, Selected;
    SelectedUnfold(f, table);
    if i == 0 {
      SelectedFrom(f, table[1..], table[0].name);
    } else {
      SelectedHas(f, table[1..], i - 1);
    }
  }

  lemma {:induction false} SelectedPlace<N(!new)>(f: bv32, table: seq<Flag<N>>, i: nat) returns (k: nat)
    requires i < |table| && Has(f, table[i].mask)
    ensures k < |Selected(f, table)| && Selected(f, table)[k] == table[i].name
  {
    hide Has, Selected;
    SelectedUnfold(f, table);
    if i == 0 {
      k := 0;
    } else {
      k := SelectedPlace(f, table[1..], i - 1);
      k := if Has(f, table[0].mask) then k + 1 else k;
    }
  }

  lemma {:induction false} SelectedInOrder<N(!new)>(f: bv32, table: seq<Flag<N>>, i: nat, j: nat)
    returns (k: nat, l: nat)
    requires i < j < |table| && Has(f, table[i].mask) && Has(f, table[j].mask)
    ensures k < l < |Selected(f, table)|
    ensures Selected(f, table)[k] == table[i].name && Selected(f, table)[l] == table[j].name
  {
    hide Has, Selected;
    SelectedUnfold(f, table);
    if i == 0 {
      l := SelectedPlace(f, table[1..], j - 1);
      k, l := 0, l + 1;
    } else {
      k, l := SelectedInOrder(f, table[1..], i - 1, j - 1);
      k, l := if Has(f, table[0].mask) then k + 1 else k, if Has(f, table[0].mask) then l + 1 else l;
    }
  }

  lemma {:induction false} SelectedOnce<N(!new)>(f: bv32, table: seq<Flag<N>>)
    requires DistinctNames(table)
    ensures forall k, l :: 0 <= k < l < |Selected(f, table)| ==> Selected(f, table)[k] != Selected(f, table)[l]
    ensures forall name :: name in Selected(f, table) ==> exists i :: 0 <= i < |table| && table[i].name == name
  {
    hide Has, Selected;
    if table == [] {
      SelectedNone<N>(f);
    } else {
      SelectedUnfold(f, table);
      SelectedOnce(f, table[1..]);
      SelectedFrom(f, table[1..], table[0].name);
      forall name | name in Selected(f, table) ensures exists i :: 0 <= i < |table| && table[i].name == name {
        if name != table[0].name {
          var i :| 0 <= i < |table[1..]| && table[1..][i].name == name;
          assert table[i + 1].name == name;
        }
      }
    }
  }

  /** The words of a text; the empty text has none. */
  ghost function WordsOf(text: string, sep: char): seq<string> {
    if text == "" then [] else Split(text, sep)
  }

  lemma WordsOfJoin(names: seq<string>, sep: char)
    requires forall name <- names :: IsWord(name, sep)
    ensures WordsOf(Join(names, sep), sep) == names
  {
    hide Split;
    SplitJoin(names, sep);
    assert names != [] ==> IsWord(names[0], sep);
  }

  /** The words of the text are the names of exactly the set flags, each once, in the order of the table. */
  lemma PrintedWords(f: bv32, table: seq<Flag<string>>, sep: char)
    requires DistinctNames(table) && Words(table, sep)
    ensures var words := WordsOf(Join(Selected(f, table), sep), sep);
      && (forall i :: 0 <= i < |table| ==> (table[i].name in words <==> f & table[i].mask != 0))
      && (forall word :: word in words ==> exists i :: 0 <= i < |table| && table[i].name == word)
      && (forall k, l :: 0 <= k < l < |words| ==> words[k] != words[l])
      && (forall i, j :: 0 <= i < j < |table| && f & table[i].mask != 0 && f & table[j].mask != 0 ==>
            exists k, l :: 0 <= k < l < |words| && words[k] == table[i].name && words[l] == table[j].name)
  {
    hide Has, Join, Selected, WordsOf, IsWord;
    HasInTable(f, table);
    SelectedWords(f, table, sep);
    WordsOfJoin(Selected(f, table), sep);
    SelectedOnce(f, table);
    forall i | 0 <= i < |table| ensures table[i].name in Selected(f, table) <==> Has(f, table[i].mask) {
      SelectedHas(f, table, i);
    }
    forall i, j | 0 <= i < j < |table| && Has(f, table[i].mask) && Has(f, table[j].mask)
      ensures exists k, l ::
        0 <= k < l < |Selected(f, table)| && Selected(f, table)[k] == table[i].name
        && Selected(f, table)[l] == table[j].name
    {
      var k, l := SelectedInOrder(f, table, i, j);
    }
  }

  // ----- the printers

  /** The printer of interface flags (`sep` a comma) and of IPv6 address flags (`sep` a space). */
  method AppendText(f: bv32, table: seq<Flag<string>>, sep: char, b: string) returns (r: string)
    ensures r == b + Join(Selected(f, table), sep)
    ensures DistinctNames(table) && Words(table, sep) ==>
      forall i :: 0 <= i < |table| ==> (table[i].name in WordsOf(r[|b|..], sep) <==> f & table[i].mask != 0)
  {
    hide Has, Join, Terminated, Selected, WordsOf, DistinctNames, Words;
    r := b;
    SelectedNone<string>(f);
    TerminatedIsJoin([], sep);
    assert table[..0] == [];
    for i := 0 to |table|
      invariant r == b + Terminated(Selected(f, table[..i]), sep)
    {
      SelectedSnoc(f, table, i);
      if Has(f, table[i].mask) {
        TerminatedSnoc(Selected(f, table[..i]), table[i].name, sep);
        r := r + table[i].name;
        r := r + [sep];
      } else {
        assert Selected(f, table[..i]) + [] == Selected(f, table[..i]);
      }
    }
    assert table[..|table|] == table;
    TerminatedIsJoin(Selected(f, table), sep);
    JoinNone(sep);
    if |r| > |b| {
      r := r[..|r| - 1];
    }
    assert r[|b|..] == Join(Selected(f, table), sep);
    if DistinctNames(table) && Words(table, sep) {
      PrintedWords(f, table, sep);
    }
  }

  /** The printer of route flags. */
  method AppendLetters(f: bv32, table: seq<Flag<char>>, b: string) returns (r: string)
    ensures r == b + Selected(f, table)
    ensures DistinctNames(table) ==>
      forall i :: 0 <= i < |table| ==> (table[i].name in r[|b|..] <==> f & table[i].mask != 0)
  {
    hide Has, Selected, DistinctNames;
    r := b;
    SelectedNone<char>(f);
    assert table[..0] == [];
    for i := 0 to |table|
      invariant r == b + Selected(f, table[..i])
    {
      SelectedSnoc(f, table, i);
      if Has(f, table[i].mask) {
        r := r + [table[i].name];
      }
    }
    assert table[..|table|] == table;
    assert r[|b|..] == Selected(f, table);
    HasInTable(f, table);
    forall i | 0 <= i < |table| && DistinctNames(table)
      ensures table[i].name in Selected(f, table) <==> Has(f, table[i].mask)
    {
      SelectedHas(f, table, i);
    }
  }

  // ----- when two words print alike

  /** After any prefix, two flag words print alike exactly when they agree on every mask of the table. */
  lemma SameTextIffSameFlags(f: bv32, g: bv32, table: seq<Flag<string>>, sep: char, b: string)
    requires DistinctNames(table) && Words(table, sep)
    ensures b + Join(Selected(f, table), sep) == b + Join(Selected(g, table), sep) <==>
      forall i :: 0 <= i < |table| ==> (f & table[i].mask != 0 <==> g & table[i].mask != 0)
  {
    SameFlagsMeaning(f, g, table);
    hide Has, Join, Selected, Words, IsWord, SameFlags;
    var x, y := Join(Selected(f, table), sep), Join(Selected(g, table), sep);
    SelectedDeterminesFlags(f, g, table);
    SelectedWords(f, table, sep);
    SelectedWords(g, table, sep);
    if b + x == b + y {
      assert x == (b + x)[|b|..] && y == (b + y)[|b|..];
      JoinDeterminesNames(Selected(f, table), Selected(g, table), sep);
    }
  }

  lemma SameLettersIffSameFlags(f: bv32, g: bv32, table: seq<Flag<char>>, b: string)
    requires DistinctNames(table)
    ensures b + Selected(f, table) == b + Selected(g, table) <==>
      forall i :: 0 <= i < |table| ==> (f & table[i].mask != 0 <==> g & table[i].mask != 0)
  {
    SameFlagsMeaning(f, g, table);
    hide Has, Selected, SameFlags;
    SelectedDeterminesFlags(f, g, table);
    var x, y := Selected(f, table), Selected(g, table);
    assert x == (b + x)[|b|..] && y == (b + y)[|b|..];
  }
}
