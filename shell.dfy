/**
 * `process_command` end to end: a line is tokenized, its first word is taken as the
 * verb and the rest as arguments, and the dispatcher selects an action; the listing
 * verbs then build and print the table for a snapshot of the working directory.
 */
module Shell {
  import opened Text
  import opened Tokenizer
  import opened Dispatcher
  import opened Flags
  import opened Listing
  import opened Render

  /** The action a whole input line selects. */
  function Interpret(line: string): Action {
    var ts := Tokens(line);
    if ts == [] then NoOp else Dispatch(ts[0], ts[1..])
  }

  /** The tokenizing loop, the removal of the verb from the token vector, and dispatch. */
  method ProcessCommand(line: string) returns (a: Action)
    ensures a == Interpret(line)
    ensures a == NoOp <==> forall k :: 0 <= k < |line| ==> IsSpace(line[k])
  {
    TokensEmptyIff(line);
    var tok := Tokenize(line);
    if tok == [] {
      return NoOp;
    }
    var cmd := tok[0];
    tok := tok[1..];
    a := Dispatch(cmd, tok);
  }

  /** An empty or all-whitespace line does nothing; any other line does something. */
  lemma BlankLineIsNoOp(line: string)
    ensures Interpret(line) == NoOp <==> forall k :: 0 <= k < |line| ==> IsSpace(line[k])
  {
    TokensEmptyIff(line);
  }

  /** Words typed with single spaces reach the dispatcher as typed: verb first, then the arguments. */
  lemma InterpretWords(ws: seq<string>)
    requires ws != [] && forall i :: 0 <= i < |ws| ==> IsWord(ws[i])
    ensures Interpret(Unwords(ws)) == Dispatch(ws[0], ws[1..])
  {
    TokensOfUnwords(ws);
  }

  /** An unknown verb is reported by name. */
  lemma UnknownVerbReported()
    ensures Interpret("frobnicate") == NotRecognized("frobnicate")
  {
    var ws := ["frobnicate"];
    assert IsWord(ws[0]);
    assert Unwords(ws) == "frobnicate";
    InterpretWords(ws);
  }

  /** `cd` without its argument, and `mv` with one, are reported as not recognized. */
  lemma MissingArgumentReported()
    ensures Interpret("cd") == NotRecognized("cd")
    ensures Interpret("mv a") == NotRecognized("mv")
  {
    var ws := ["cd"];
    assert IsWord(ws[0]);
    assert Unwords(ws) == "cd";
    InterpretWords(ws);
    var vs := ["mv", "a"];
    assert IsWord(vs[0]) && IsWord(vs[1]);
    assert Unwords(vs) == "mv a";
    InterpretWords(vs);
  }

  /** Two arrangements of the same entries have the same length and the same members. */
  lemma SameEntries(a: seq<Entry>, b: seq<Entry>)
    requires multiset(a) == multiset(b)
    ensures |a| == |b|
    ensures forall k :: 0 <= k < |a| ==> a[k] in b
  {
    assert |multiset(a)| == |multiset(b)|;
    forall k | 0 <= k < |a|
      ensures a[k] in b
    {
      assert a[k] in multiset(a);
    }
  }

  /** `line` is the table row of one of `entries`. */
  predicate IsRowOf(line: string, entries: seq<Entry>, sizes: map<string, nat>) {
    exists e :: e in entries && line == TableRow(e, sizes)
  }

  /**
   * `fd_command`: parse the flags, build the listing from the snapshot, print the table.
   * Returns the listing as well as the printed lines: one row per listed entry, in
   * listing order, which is scan order or, when sorting is on, name order.
   */
  method ListCommand(args: seq<string>, cwd: string, scan: seq<Entry>, sizes: map<string, nat>)
    returns (items: seq<Entry>, lines: seq<string>)
    ensures var f := Parse(args, NoFlags);
      !f.sortAlpha ==> items == Filtered(scan, f)
    ensures var f := Parse(args, NoFlags);
      f.sortAlpha ==> SortedByName(items) && multiset(items) == multiset(Filtered(scan, f))
    ensures |items| == |Filtered(scan, Parse(args, NoFlags))|
    ensures |lines| == |items| + 4
    ensures lines[0] == cwd && lines[1] == "" && lines[2] == Header && lines[|lines| - 1] == Footer
    ensures forall k :: 0 <= k < |items| ==> lines[k + 3] == TableRow(items[k], sizes)
    ensures forall k :: 3 <= k < |lines| - 1 ==> IsRowOf(lines[k], Filtered(scan, Parse(args, NoFlags)), sizes)
  {
    items := BuildListing(args, scan);
    ghost var listed := Filtered(scan, Parse(args, NoFlags));
    SameEntries(items, listed);
    lines := PrintTable(cwd, items, sizes);
    forall k | 3 <= k < |lines| - 1
      ensures IsRowOf(lines[k], listed, sizes)
    {
      var e := items[k - 3];
      assert e in listed && lines[k] == TableRow(e, sizes);
    }
  }

  /** `touch a.txt` selects the file creation. */
  lemma TouchCommand()
    ensures Interpret("touch a.txt") == Touch("a.txt")
  {
    var ws := ["touch", "a.txt"];
    assert IsWord(ws[0]) && IsWord(ws[1]);
    assert Unwords(ws) == "touch a.txt";
    InterpretWords(ws);
    assert Dispatch(ws[0], ws[1..]) == Touch("a.txt");
  }

  /** `ls -ptxt` selects the listing, handing it the flag. */
  lemma ListByExtensionCommand()
    ensures Interpret("ls -ptxt") == List(["-ptxt"])
  {
    var vs := ["ls", "-ptxt"];
    assert IsWord(vs[0]) && IsWord(vs[1]);
    assert Unwords(vs) == "ls -ptxt";
    InterpretWords(vs);
  }

  /** `-ptxt` sets the extension filter to `txt` and nothing else. */
  lemma InlineFilterFlag()
    ensures Parse(["-ptxt"], NoFlags) == NoFlags.(filterExt := "txt")
  {
    assert StartsWith("-ptxt", "-p") && "-ptxt"[2..] == "txt";
  }

  /** A directory holding only the new empty `a.txt`, listed with `-ptxt`, shows it with size `0B`. */
  lemma TouchThenListShowsFile()
    ensures var f := Parse(["-ptxt"], NoFlags);
      Filtered([Entry("a.txt", false)], f) == [Entry("a.txt", false)]
    ensures HumanSize(EntrySize(Entry("a.txt", false), map["a.txt" := 0])) == "0B"
  {
    var f := Parse(["-ptxt"], NoFlags);
    InlineFilterFlag();
    PathExt.ExtensionOfJoin("a", "txt");
    assert "a" + "." + "txt" == "a.txt";
    assert Keep(f, Entry("a.txt", false));
    var scan := [Entry("a.txt", false)];
    assert scan[..0] == [];
    assert EntrySize(Entry("a.txt", false), map["a.txt" := 0]) == 0;
    ByteExamples();
  }

  /** `A`, `a.txt`, `b.txt` is in byte order and has no repeated name. */
  lemma ExampleOrder()
    ensures var t := [Entry("A", true), Entry("a.txt", false), Entry("b.txt", false)];
      SortedByName(t) && DistinctNames(t)
  {
    assert ByteOrder.Less("A", "a.txt") && ByteOrder.Less("a.txt", "b.txt") && ByteOrder.Less("A", "b.txt");
    ByteOrder.LessAsymmetric("A", "a.txt");
    ByteOrder.LessAsymmetric("a.txt", "b.txt");
    ByteOrder.LessAsymmetric("A", "b.txt");
  }

  /** Sorting `b.txt`, `A`, `a.txt` gives `A`, `a.txt`, `b.txt`: upper case before lower case. */
  lemma SortExample(s: seq<Entry>)
    requires SortedByName(s)
    requires multiset(s) == multiset([Entry("b.txt", false), Entry("A", true), Entry("a.txt", false)])
    ensures s == [Entry("A", true), Entry("a.txt", false), Entry("b.txt", false)]
  {
    var t := [Entry("A", true), Entry("a.txt", false), Entry("b.txt", false)];
    ExampleOrder();
    assert multiset(t) == multiset([Entry("b.txt", false), Entry("A", true), Entry("a.txt", false)]);
    SortedPermutationUnique(t, s);
  }
}
