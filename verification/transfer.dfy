/**
 Importing and exporting the name list as text: `importNames` keeps the
 trimmed, non-blank lines of a file and `exportNames` writes the names one
 per line. Reading and writing the file itself is not modelled.
 */
module NameTransfer {
  import opened Text
  import Sequences

  /** A name as import produces it: non-empty, trimmed, on one line. */
  predicate IsCleanName(s: string)
  {
    s != "" && IsTrimmed(s) && Newline !in s
  }

  /** `.map((l) => l.trim())`: each piece trimmed, in place. */
  function TrimEach(pieces: seq<string>): (r: seq<string>)
    ensures |r| == |pieces|
    ensures forall k :: 0 <= k < |r| ==> r[k] == Trim(pieces[k])
    decreases |pieces|
  {
    if pieces == [] then [] else [Trim(pieces[0])] + TrimEach(pieces[1..])
  }

  /**
   `.map((l) => l.trim()).filter(Boolean)` over the pieces of the text: the
   names are non-empty and trimmed (`CleanLinesIsFilter` says which they are).
   */
  function CleanLines(pieces: seq<string>): (names: seq<string>)
    ensures forall k :: 0 <= k < |names| ==> names[k] != "" && IsTrimmed(names[k])
    ensures |names| <= |pieces|
    decreases |pieces|
  {
    if pieces == [] then []
    else
      var t := Trim(pieces[0]);
      var rest := CleanLines(pieces[1..]);
      var r := if t == "" then rest else [t] + rest;
      assert forall k :: 0 <= k < |r| ==> r[k] != "" && IsTrimmed(r[k]) by {
        if t != "" {
          forall k | 0 <= k < |r| ensures r[k] != "" && IsTrimmed(r[k]) {
            if k > 0 { assert r[k] == rest[k - 1]; }
          }
        }
      }
      r
  }

  /**
   The clean lines are exactly the trimmed pieces with the empty ones filtered
   out: `.filter(Boolean)` on strings drops `""` and nothing else.
   */
  lemma {:induction false} CleanLinesIsFilter(pieces: seq<string>)
    ensures CleanLines(pieces) == Sequences.RemoveAll(TrimEach(pieces), "")
    decreases |pieces|
  {
    if pieces != [] {
      CleanLinesIsFilter(pieces[1..]);
      var trimmed := TrimEach(pieces);
      assert trimmed[0] == Trim(pieces[0]);
      assert trimmed[1..] == TrimEach(pieces[1..]);
    }
  }

  /** Pieces on one line give names on one line. */
  lemma {:induction false} CleanLinesOneLine(pieces: seq<string>)
    requires forall k :: 0 <= k < |pieces| ==> Newline !in pieces[k]
    ensures forall k :: 0 <= k < |CleanLines(pieces)| ==> IsCleanName(CleanLines(pieces)[k])
    decreases |pieces|
  {
    if pieces != [] {
      TrimKeepsOneLine(pieces[0]);
      CleanLinesOneLine(pieces[1..]);
      var t := Trim(pieces[0]);
      var rest := CleanLines(pieces[1..]);
      var r := CleanLines(pieces);
      assert r == if t == "" then rest else [t] + rest;
      forall k | 0 <= k < |r| ensures IsCleanName(r[k]) {
        if t != "" && k > 0 { assert r[k] == rest[k - 1]; }
      }
    }
  }

  /** Trimming a line cannot produce a line break that was not there. */
  lemma TrimKeepsOneLine(s: string)
    requires Newline !in s
    ensures Newline !in Trim(s)
  {
    var r := Trim(s);
    var i :| IsCore(r, s, i);
    forall k | 0 <= k < |r| ensures r[k] != Newline {
      assert r[k] == s[i + k];
    }
  }

  /**
   `importNames`: the clean lines of the text replace the list, unless there
   are none, and then the list stays as it was.
   */
  function Import(names: seq<string>, text: string): (names': seq<string>)
    ensures CleanLines(Split(text)) == [] ==> names' == names
    ensures CleanLines(Split(text)) != [] ==> names' == CleanLines(Split(text))
    ensures CleanLines(Split(text)) != [] ==> forall k :: 0 <= k < |names'| ==> IsCleanName(names'[k])
  {
    CleanLinesOneLine(Split(text));
    var imported := CleanLines(Split(text));
    if |imported| > 0 then imported else names
  }

  /**
   `exportNames`: `names.join("\n")`. An empty list gives an empty file. A
   non-empty list of names on one line each gives a file that splits back
   into exactly those names (with `JoinSplit`, this is the only such text),
   with one line feed fewer than names, starting with the first name.
   */
  function Export(names: seq<string>): (text: string)
    ensures names == [] ==> text == ""
    ensures names != [] ==> names[0] <= text
    ensures names != [] && (forall k :: 0 <= k < |names| ==> Newline !in names[k]) ==>
      Split(text) == names && multiset(text)[Newline] == |names| - 1
  {
    JoinShape(names);
    SplitExport(names);
    Join(names)
  }

  lemma SplitExport(names: seq<string>)
    ensures names != [] && (forall k :: 0 <= k < |names| ==> Newline !in names[k]) ==>
      Split(Join(names)) == names
  {
    if names != [] && (forall k :: 0 <= k < |names| ==> Newline !in names[k]) {
      SplitJoin(names);
    }
  }

  /** A non-empty list of clean names survives an export and re-import unchanged. */
  lemma ImportExport(current: seq<string>, names: seq<string>)
    requires forall k :: 0 <= k < |names| ==> IsCleanName(names[k])
    ensures names != [] ==> Import(current, Export(names)) == names
    ensures names == [] ==> Import(current, Export(names)) == current
  {
    if names != [] {
      SplitJoin(names);
      CleanLinesOfClean(names);
    }
  }

  lemma {:induction false} CleanLinesOfClean(names: seq<string>)
    requires forall k :: 0 <= k < |names| ==> IsCleanName(names[k])
    ensures CleanLines(names) == names
    decreases |names|
  {
    if names != [] {
      TrimOfTrimmed(names[0]);
      CleanLinesOfClean(names[1..]);
    }
  }

  /** Exporting an empty list writes an empty file, and importing it changes nothing. */
  lemma ImportBlank(current: seq<string>, text: string)
    requires IsBlank(text)
    ensures Import(current, text) == current
  {
    BlankLinesVanish(text);
  }

  lemma {:induction false} BlankLinesVanish(text: string)
    requires IsBlank(text)
    ensures CleanLines(Split(text)) == []
    decreases |text|
  {
    if Newline in text {
      var i := IndexOf(text, Newline);
      assert IsBlank(text[..i]);
      BlankLinesVanish(text[i + 1..]);
    }
  }

  /** A file with padded names and an empty line imports as the bare names. */
  lemma ImportExample(current: seq<string>)
    ensures Import(current, "  Bob \n\nAlice") == ["Bob", "Alice"]
  {
    ExampleSplit();
    ExampleClean();
  }

  lemma ExampleClean()
    ensures CleanLines(["  Bob ", "", "Alice"]) == ["Bob", "Alice"]
  {
    ExampleTrim();
    TrimOfTrimmed("Alice");
    ExampleCleanTail();
    var pieces := ["  Bob ", "", "Alice"];
    assert pieces[1..] == ["", "Alice"];
  }

  lemma ExampleCleanTail()
    ensures CleanLines(["", "Alice"]) == ["Alice"]
  {
    TrimOfTrimmed("Alice");
    assert Trim("") == "";
    var pieces := ["", "Alice"];
    assert pieces[1..] == ["Alice"];
    assert pieces[1..][1..] == [];
  }

  lemma ExampleSplit()
    ensures Split("  Bob \n\nAlice") == ["  Bob ", "", "Alice"]
  {
    var pieces := ["  Bob ", "", "Alice"];
    assert Join(pieces[2..]) == "Alice";
    assert Join(pieces[1..]) == "\nAlice";
    assert Join(pieces) == "  Bob \n\nAlice";
    SplitJoin(pieces);
  }

  lemma ExampleTrim()
    ensures Trim("  Bob ") == "Bob"
  {
    var s := "  Bob ";
    assert SkipLeading(s, 2) == 2;
    assert SkipLeading(s, 0) == 2;
    assert SkipTrailing(s, 2, 6) == 5;
  }
}
