/**
 * `generateMarkdownTable` of `packages/e2e/scripts/add-benchmarks-to-markdown.js`:
 * a Markdown pipe table whose columns are the keys of the first entry, with
 * a `---` separator line and one body line per entry.
 */
module Markdown {
  import opened Wrappers
  import opened Js

  /**
   * One entry: its keys in `Object.keys` order, each with its value as
   * `Array.prototype.join` renders it (`null` and `undefined` as `""`).
   */
  type Entry = seq<(string, string)>

  /** `Object.keys(entry)`. */
  function Keys(e: Entry): (r: seq<string>)
    ensures |r| == |e|
    ensures forall i :: 0 <= i < |e| ==> r[i] == e[i].0
  {
    seq(|e|, i requires 0 <= i < |e| => e[i].0)
  }

  /** `row[header]` as `join` renders it: the key's value, or "" when the entry lacks the key (`undefined`). */
  function Lookup(e: Entry, key: string): (r: string)
    ensures (forall i :: 0 <= i < |e| ==> e[i].0 != key) ==> r == ""
    ensures (exists i :: 0 <= i < |e| && e[i].0 == key) ==> exists i :: 0 <= i < |e| && e[i] == (key, r)
  {
    if |e| == 0 then ""
    else if e[0].0 == key then e[0].1
    else
      var r := Lookup(e[1..], key);
      assert forall i :: 1 <= i < |e| ==> e[i] == e[1..][i - 1];
      r
  }

  /** `| a | b | c |`. */
  function Framed(cells: seq<string>): string {
    "| " + Join(cells, " | ") + " |"
  }

  function HeaderLine(keys: seq<string>): string {
    Framed(keys)
  }

  /** `headerRow.map(() => '---')`. */
  function Dashes(n: nat): (r: seq<string>)
    ensures |r| == n && forall j :: 0 <= j < n ==> r[j] == "---"
  {
    seq(n, _ => "---")
  }

  function SeparatorLine(keys: seq<string>): string {
    Framed(Dashes(|keys|))
  }

  /** `headerRow.map((header) => row[header])`. */
  function Cells(keys: seq<string>, e: Entry): (r: seq<string>)
    ensures |r| == |keys|
  {
    seq(|keys|, j requires 0 <= j < |keys| => Lookup(e, keys[j]))
  }

  function RowLine(keys: seq<string>, e: Entry): string {
    Framed(Cells(keys, e))
  }

  /** `data.map((row) => ...)`: one body line per entry. */
  function Rows(keys: seq<string>, data: seq<Entry>): (r: seq<string>)
    ensures |r| == |data|
    ensures forall i :: 0 <= i < |data| ==> r[i] == RowLine(keys, data[i])
  {
    seq(|data|, i requires 0 <= i < |data| => RowLine(keys, data[i]))
  }

  /** What `Object.keys(undefined)` throws for an empty `data`. */
  const NoEntryError := "Cannot convert undefined or null to object"

  /** `generateMarkdownTable(data)`. */
  function GenerateMarkdownTable(data: seq<Entry>): Result<string> {
    if |data| == 0 then Err(NoEntryError)
    else
      var keys := Keys(data[0]);
      var tableHeader := HeaderLine(keys) + "\n" + SeparatorLine(keys);
      var tableRows := Rows(keys, data);
      Ok(tableHeader + "\n" + Join(tableRows, "\n"))
  }

  /** `s.split('\n')`. */
  function Lines(s: string): (r: seq<string>)
    ensures |r| >= 1
    decreases |s|
  {
    if |s| == 0 then [""]
    else if s[0] == '\n' then [""] + Lines(s[1..])
    else
      var t := Lines(s[1..]);
      [[s[0]] + t[0]] + t[1..]
  }

  /** The number of occurrences of `c` in `s`. */
  function Count(c: char, s: string): nat
    decreases |s|
  {
    if |s| == 0 then 0 else (if s[0] == c then 1 else 0) + Count(c, s[1..])
  }

  lemma {:induction false} CountAppend(c: char, a: string, b: string)
    ensures Count(c, a + b) == Count(c, a) + Count(c, b)
    decreases |a|
  {
    if |a| > 0 {
      assert (a + b)[0] == a[0] && (a + b)[1..] == a[1..] + b;
      CountAppend(c, a[1..], b);
    } else {
      assert a + b == b;
    }
  }

  lemma {:induction false} CountAbsent(c: char, s: string)
    requires c !in s
    ensures Count(c, s) == 0
    decreases |s|
  {
    if |s| > 0 {
      CountAbsent(c, s[1..]);
    }
  }

  lemma {:induction false} NotInJoin(c: char, parts: seq<string>, sep: string)
    requires c !in sep && forall k :: 0 <= k < |parts| ==> c !in parts[k]
    ensures c !in Join(parts, sep)
    decreases |parts|
  {
    if |parts| > 1 {
      NotInJoin(c, parts[1..], sep);
    }
  }

  /** A line without a newline splits into itself. */
  lemma {:induction false} LinesOfLine(a: string)
    requires '\n' !in a
    ensures Lines(a) == [a]
    decreases |a|
  {
    if |a| > 0 {
      LinesOfLine(a[1..]);
      assert [a[0]] + a[1..] == a;
    }
  }

  /** Splitting `a + "\n" + rest` peels off `a` when `a` has no newline. */
  lemma {:induction false} LinesCons(a: string, rest: string)
    requires '\n' !in a
    ensures Lines(a + "\n" + rest) == [a] + Lines(rest)
    decreases |a|
  {
    var s := a + "\n" + rest;
    if |a| == 0 {
      assert s == "\n" + rest;
      assert s[1..] == rest;
    } else {
      assert s[1..] == a[1..] + "\n" + rest;
      LinesCons(a[1..], rest);
      assert [a[0]] + a[1..] == a;
    }
  }

  /** `split('\n')` undoes `join('\n')` for lines without newlines. */
  lemma {:induction false} LinesJoin(parts: seq<string>)
    requires |parts| >= 1
    requires forall k :: 0 <= k < |parts| ==> '\n' !in parts[k]
    ensures Lines(Join(parts, "\n")) == parts
    decreases |parts|
  {
    if |parts| == 1 {
      LinesOfLine(parts[0]);
    } else {
      LinesJoin(parts[1..]);
      LinesCons(parts[0], Join(parts[1..], "\n"));
    }
  }

  /** Joining with " | " puts one pipe between neighbours. */
  lemma {:induction false} JoinPipes(cells: seq<string>)
    requires |cells| >= 1
    requires forall k :: 0 <= k < |cells| ==> '|' !in cells[k]
    ensures Count('|', Join(cells, " | ")) == |cells| - 1
    decreases |cells|
  {
    if |cells| == 1 {
      CountAbsent('|', cells[0]);
    } else {
      JoinPipes(cells[1..]);
      CountAbsent('|', cells[0]);
      assert Count('|', " | ") == 1;
      CountAppend('|', cells[0], " | ");
      CountAppend('|', cells[0] + " | ", Join(cells[1..], " | "));
    }
  }

  /** A framed line of `n >= 1` pipe-free cells has `n + 1` pipes. */
  lemma FramedPipes(cells: seq<string>)
    requires |cells| >= 1
    requires forall k :: 0 <= k < |cells| ==> '|' !in cells[k]
    ensures Count('|', Framed(cells)) == |cells| + 1
  {
    JoinPipes(cells);
    assert Count('|', "| ") == 1 && Count('|', " |") == 1;
    CountAppend('|', "| ", Join(cells, " | "));
    CountAppend('|', "| " + Join(cells, " | "), " |");
  }

  lemma FramedNoNewline(cells: seq<string>)
    requires forall k :: 0 <= k < |cells| ==> '\n' !in cells[k]
    ensures '\n' !in Framed(cells)
  {
    NotInJoin('\n', cells, " | ");
  }

  lemma LookupIn(e: Entry, key: string, c: char)
    requires forall i :: 0 <= i < |e| ==> c !in e[i].1
    ensures c !in Lookup(e, key)
  {
  }

  /** No key and no value of any entry contains the character `c`. */
  predicate Clear(data: seq<Entry>, c: char) {
    forall i, k :: 0 <= i < |data| && 0 <= k < |data[i]| ==> c !in data[i][k].0 && c !in data[i][k].1
  }

  /**
   * Only an empty `data` throws. Otherwise, when no key or value holds a
   * newline, the output's lines are the header, the separator and one line
   * per entry, in order: `2 + |data|` lines.
   */
  lemma TableLines(data: seq<Entry>)
    requires Clear(data, '\n')
    ensures GenerateMarkdownTable(data).Err? <==> |data| == 0
    ensures |data| > 0 ==>
      var keys := Keys(data[0]);
      var lines := Lines(GenerateMarkdownTable(data).value);
      && |lines| == |data| + 2
      && lines[0] == HeaderLine(keys)
      && lines[1] == SeparatorLine(keys)
      && forall i :: 0 <= i < |data| ==> lines[i + 2] == RowLine(keys, data[i])
  {
    if |data| > 0 {
      var keys := Keys(data[0]);
      var rows := Rows(keys, data);
      var parts := [HeaderLine(keys), SeparatorLine(keys)] + rows;
      FramedNoNewline(keys);
      FramedNoNewline(Dashes(|keys|));
      RowsClear(keys, data);
      JoinHeadAndRows(HeaderLine(keys), SeparatorLine(keys), rows, "\n");
      LinesJoin(parts);
    }
  }

  /** Body lines of entries without newlines hold no newline. */
  lemma RowsClear(keys: seq<string>, data: seq<Entry>)
    requires Clear(data, '\n')
    ensures forall i :: 0 <= i < |data| ==> '\n' !in Rows(keys, data)[i]
  {
    forall i | 0 <= i < |data|
      ensures '\n' !in Rows(keys, data)[i]
    {
      var cells := Cells(keys, data[i]);
      forall j | 0 <= j < |keys|
        ensures '\n' !in cells[j]
      {
        LookupIn(data[i], keys[j], '\n');
      }
      FramedNoNewline(cells);
    }
  }

  /** Joining a part in front of a non-empty rest puts one separator between them. */
  lemma JoinCons(x: string, rest: seq<string>, sep: string)
    requires |rest| >= 1
    ensures Join([x] + rest, sep) == x + sep + Join(rest, sep)
  {
    assert ([x] + rest)[1..] == rest;
  }

  lemma AppendAssoc(a: string, b: string, j: string, sep: string)
    ensures a + sep + (b + sep + j) == a + sep + b + sep + j
  {
  }

  /** Joining two leading lines and a non-empty rest. */
  lemma JoinHeadAndRows(a: string, b: string, rows: seq<string>, sep: string)
    requires |rows| >= 1
    ensures Join([a, b] + rows, sep) == a + sep + b + sep + Join(rows, sep)
  {
    var tail := [b] + rows;
    JoinCons(b, rows, sep);
    JoinCons(a, tail, sep);
    assert [a, b] + rows == [a] + tail;
    AppendAssoc(a, b, Join(rows, sep), sep);
  }

  /**
   * With at least one column and no pipe in any key or value, every line of
   * the table (header, separator and each body line) has one pipe more than
   * there are columns.
   */
  lemma TableColumns(data: seq<Entry>)
    requires |data| > 0 && |data[0]| > 0
    requires Clear(data, '|')
    ensures var keys := Keys(data[0]);
      && Count('|', HeaderLine(keys)) == |keys| + 1
      && Count('|', SeparatorLine(keys)) == |keys| + 1
      && forall i :: 0 <= i < |data| ==> Count('|', RowLine(keys, data[i])) == |keys| + 1
  {
    var keys := Keys(data[0]);
    FramedPipes(keys);
    FramedPipes(Dashes(|keys|));
    forall i | 0 <= i < |data|
      ensures Count('|', RowLine(keys, data[i])) == |keys| + 1
    {
      var cells := Cells(keys, data[i]);
      forall j | 0 <= j < |keys|
        ensures '|' !in cells[j]
      {
        LookupIn(data[i], keys[j], '|');
      }
      FramedPipes(cells);
    }
  }

  /** Body cell `j` of an entry is its value under column `j`, or "" when it lacks that key. */
  lemma RowCells(keys: seq<string>, e: Entry, j: nat)
    requires j < |keys|
    ensures var cell := Cells(keys, e)[j];
      && ((forall i :: 0 <= i < |e| ==> e[i].0 != keys[j]) ==> cell == "")
      && ((exists i :: 0 <= i < |e| && e[i].0 == keys[j]) ==> exists i :: 0 <= i < |e| && e[i] == (keys[j], cell))
  {
  }

  const ExampleData: seq<Entry> := [[("a", "1"), ("b", "2")], [("a", "3")]]

  lemma ExampleKeys()
    ensures Keys(ExampleData[0]) == ["a", "b"]
  {
  }

  lemma ExampleHeaderLine()
    ensures HeaderLine(["a", "b"]) == "| a | b |"
  {
    assert Join(["a", "b"], " | ") == "a | b" by {
      assert ["a", "b"][1..] == ["b"];
    }
  }

  lemma ExampleSeparatorLine()
    ensures SeparatorLine(["a", "b"]) == "| --- | --- |"
  {
    assert Dashes(2) == ["---", "---"];
    assert Join(["---", "---"], " | ") == "--- | ---" by {
      assert ["---", "---"][1..] == ["---"];
    }
  }

  lemma ExampleFirstRow()
    ensures RowLine(["a", "b"], ExampleData[0]) == "| 1 | 2 |"
  {
    assert Cells(["a", "b"], ExampleData[0]) == ["1", "2"];
    assert Join(["1", "2"], " | ") == "1 | 2" by {
      assert ["1", "2"][1..] == ["2"];
    }
  }

  lemma ExampleSecondRow()
    ensures RowLine(["a", "b"], ExampleData[1]) == "| 3 |  |"
  {
    assert Lookup(ExampleData[1], "b") == "";
    assert Cells(["a", "b"], ExampleData[1]) == ["3", ""];
    assert Join(["3", ""], " | ") == "3 | " by {
      assert ["3", ""][1..] == [""];
    }
  }

  /** A two-column example: header, separator, `| 1 | 2 |`, and a missing key left blank. */
  lemma TableExample()
    ensures Lines(GenerateMarkdownTable(ExampleData).value) == ["| a | b |", "| --- | --- |", "| 1 | 2 |", "| 3 |  |"]
  {
    ExampleKeys();
    ExampleHeaderLine();
    ExampleSeparatorLine();
    ExampleFirstRow();
    ExampleSecondRow();
    assert Clear(ExampleData, '\n');
    TableLines(ExampleData);
  }
}
