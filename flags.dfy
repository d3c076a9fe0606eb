/** The flag loop of `fd_command`: which listing options the arguments select. */
module Flags {
  import opened Text

  datatype Flags = Flags(showHidden: bool, noExtension: bool, sortAlpha: bool, filterExt: string)

  const NoFlags := Flags(false, false, false, "")

  /** A one-letter token turns sorting on: the loose test the parser applies. */
  predicate IsSortTrigger(a: string) {
    |a| == 1 && IsAlpha(a[0])
  }

  /** The effect of one token read as an option, other than a lone `-p`. */
  function ApplyOption(a: string, acc: Flags): Flags {
    if a == "--hidden" then acc.(showHidden := true)
    else if a == "-e" then acc.(noExtension := true)
    else if StartsWith(a, "-p") && |a| > 2 then acc.(filterExt := a[2..])
    else if IsSortTrigger(a) then acc.(sortAlpha := true)
    else acc
  }

  /**
   * The options `args` select, starting from `acc`, read left to right. `-p`
   * takes the next token as its operand (whatever it looks like); a lone `-p` at
   * the end is dropped; `-pXYZ` carries its operand inline; anything unknown is
   * skipped.
   */
  function Parse(args: seq<string>, acc: Flags): Flags
    decreases |args|
  {
    if args == [] then acc
    else if args[0] == "-p" then
      if |args| >= 2 then Parse(args[2..], acc.(filterExt := args[1])) else acc
    else Parse(args[1..], ApplyOption(args[0], acc))
  }

  /** The tokens the parser reads as options: all but the operands of `-p`. */
  function OptionWords(args: seq<string>): seq<string>
    decreases |args|
  {
    if args == [] then []
    else if args[0] == "-p" then [args[0]] + (if |args| >= 2 then OptionWords(args[2..]) else [])
    else [args[0]] + OptionWords(args[1..])
  }

  /** The tokens do not end in a lone `-p` waiting for its operand. */
  predicate Aligned(args: seq<string>)
    decreases |args|
  {
    if args == [] then true
    else if args[0] == "-p" then |args| >= 2 && Aligned(args[2..])
    else Aligned(args[1..])
  }

  /** The index loop of `fd_command`; `i` advances on every pass, by two past `-p`. */
  method ParseFlags(args: seq<string>) returns (f: Flags)
    ensures f == Parse(args, NoFlags)
  {
    f := NoFlags;
    var i := 0;
    while i < |args|
      invariant 0 <= i <= |args| + 1
      invariant i <= |args| ==> Parse(args[i..], f) == Parse(args, NoFlags)
      invariant i > |args| ==> f == Parse(args, NoFlags)
      decreases |args| + 1 - i
    {
      var a := args[i];
      assert args[i..][1..] == args[i + 1..];
      if a == "--hidden" {
        f := f.(showHidden := true);
        i := i + 1;
      } else if a == "-e" {
        f := f.(noExtension := true);
        i := i + 1;
      } else if a == "-p" {
        if i + 1 < |args| {
          assert args[i..][2..] == args[i + 2..];
          f := f.(filterExt := args[i + 1]);
        }
        i := i + 2;
      } else if StartsWith(a, "-p") && |a| > 2 {
        f := f.(filterExt := a[2..]);
        i := i + 1;
      } else if |a| == 1 && IsAlpha(a[0]) {
        f := f.(sortAlpha := true);
        i := i + 1;
      } else {
        i := i + 1;
      }
    }
  }

  /** The tokens that follow the first one once the parser has read it. */
  function RestAfterFirst(args: seq<string>): seq<string>
    requires args != []
  {
    if args[0] == "-p" then (if |args| >= 2 then args[2..] else []) else args[1..]
  }

  /** The options after the parser has read the first token. */
  function AfterFirst(args: seq<string>, acc: Flags): Flags
    requires args != []
  {
    if args[0] == "-p" then (if |args| >= 2 then acc.(filterExt := args[1]) else acc)
    else ApplyOption(args[0], acc)
  }

  lemma ParseUnfold(args: seq<string>, acc: Flags)
    requires args != []
    ensures Parse(args, acc) == Parse(RestAfterFirst(args), AfterFirst(args, acc))
    ensures OptionWords(args) == [args[0]] + OptionWords(RestAfterFirst(args))
  {
  }

  /** `--hidden` shows hidden names exactly when it is read as an option. */
  lemma {:induction false} ParseShowHidden(args: seq<string>, acc: Flags)
    ensures Parse(args, acc).showHidden <==> acc.showHidden || "--hidden" in OptionWords(args)
    decreases |args|
  {
    if args != [] {
      ParseUnfold(args, acc);
      ParseShowHidden(RestAfterFirst(args), AfterFirst(args, acc));
    }
  }

  /** `-e` excludes names with an extension exactly when it is read as an option. */
  lemma {:induction false} ParseNoExtension(args: seq<string>, acc: Flags)
    ensures Parse(args, acc).noExtension <==> acc.noExtension || "-e" in OptionWords(args)
    decreases |args|
  {
    if args != [] {
      ParseUnfold(args, acc);
      ParseNoExtension(RestAfterFirst(args), AfterFirst(args, acc));
    }
  }

  /** Sorting is on exactly when some one-letter token is read as an option. */
  lemma {:induction false} ParseSortAlpha(args: seq<string>, acc: Flags)
    ensures var ws := OptionWords(args);
      Parse(args, acc).sortAlpha <==> acc.sortAlpha || exists k :: 0 <= k < |ws| && IsSortTrigger(ws[k])
    decreases |args|
  {
    if args != [] {
      var ws := OptionWords(args);
      var rest := RestAfterFirst(args);
      ParseUnfold(args, acc);
      ParseSortAlpha(rest, AfterFirst(args, acc));
      var rws := OptionWords(rest);
      if exists k :: 0 <= k < |rws| && IsSortTrigger(rws[k]) {
        var k :| 0 <= k < |rws| && IsSortTrigger(rws[k]);
        assert IsSortTrigger(ws[k + 1]);
      }
      if exists k :: 0 <= k < |ws| && IsSortTrigger(ws[k]) {
        var k :| 0 <= k < |ws| && IsSortTrigger(ws[k]);
        if k > 0 {
          assert IsSortTrigger(rws[k - 1]);
        }
      }
    }
  }

  /** Parsing an aligned prefix and then the rest is parsing the whole. */
  lemma {:induction false} ParseAppend(pre: seq<string>, post: seq<string>, acc: Flags)
    requires Aligned(pre)
    ensures Parse(pre + post, acc) == Parse(post, Parse(pre, acc))
    decreases |pre|
  {
    if pre == [] {
      assert pre + post == post;
    } else if pre[0] == "-p" {
      assert (pre + post)[2..] == pre[2..] + post;
      ParseAppend(pre[2..], post, acc.(filterExt := pre[1]));
    } else {
      assert (pre + post)[1..] == pre[1..] + post;
      ParseAppend(pre[1..], post, ApplyOption(pre[0], acc));
    }
  }

  /** Tokens none of which begins with `-p` leave the extension filter alone. */
  lemma {:induction false} ParseKeepsFilter(args: seq<string>, acc: Flags)
    requires forall k :: 0 <= k < |args| ==> !StartsWith(args[k], "-p")
    ensures Parse(args, acc).filterExt == acc.filterExt
    decreases |args|
  {
    if args != [] {
      assert !StartsWith(args[0], "-p");
      ParseKeepsFilter(args[1..], ApplyOption(args[0], acc));
    }
  }

  /**
   * The last `-p` wins: after an aligned prefix, `-p X` sets the filter to `X`
   * whatever came before, provided nothing later begins with `-p`.
   */
  lemma LaterFilterWins(pre: seq<string>, x: string, post: seq<string>, acc: Flags)
    requires Aligned(pre)
    requires forall k :: 0 <= k < |post| ==> !StartsWith(post[k], "-p")
    ensures Parse(pre + ["-p", x] + post, acc).filterExt == x
  {
    var mid := Parse(pre, acc);
    assert pre + ["-p", x] + post == pre + (["-p", x] + post);
    ParseAppend(pre, ["-p", x] + post, acc);
    assert (["-p", x] + post)[2..] == post;
    ParseKeepsFilter(post, mid.(filterExt := x));
  }

  /** The same for the inline form `-pX`. */
  lemma LaterInlineFilterWins(pre: seq<string>, x: string, post: seq<string>, acc: Flags)
    requires Aligned(pre)
    requires forall k :: 0 <= k < |post| ==> !StartsWith(post[k], "-p")
    requires x != ""
    ensures Parse(pre + ["-p" + x] + post, acc).filterExt == x
  {
    var mid := Parse(pre, acc);
    var t := "-p" + x;
    assert StartsWith(t, "-p") && t != "-p" && t[2..] == x;
    assert pre + [t] + post == pre + ([t] + post);
    ParseAppend(pre, [t] + post, acc);
    assert ([t] + post)[1..] == post;
    assert t[1] == 'p' && t != "--hidden" && t != "-e";
    assert ApplyOption(t, mid) == mid.(filterExt := x);
    ParseKeepsFilter(post, mid.(filterExt := x));
  }

  /** A lone `-p` at the end changes nothing. */
  lemma TrailingDashP(pre: seq<string>, acc: Flags)
    requires Aligned(pre)
    ensures Parse(pre + ["-p"], acc) == Parse(pre, acc)
  {
    ParseAppend(pre, ["-p"], acc);
  }

  /** The operand of `-p` is never read as an option, even when it looks like one. */
  lemma OperandIsNotAnOption(x: string, rest: seq<string>, acc: Flags)
    ensures Parse(["-p", x] + rest, acc) == Parse(rest, acc.(filterExt := x))
    ensures OptionWords(["-p", x] + rest) == ["-p"] + OptionWords(rest)
  {
    assert (["-p", x] + rest)[2..] == rest;
  }
}
