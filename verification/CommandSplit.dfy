module CommandSplit {
  // The command splitter of popen_noshell: blanks separate tokens, single and double quotes group,
  // and shell metacharacters are refused. The code writes the tokens, each with a final zero, into
  // one buffer behind its reading place; it is proved against a grammar of quoted tokens and
  // against a printer that quotes.

  import opened Common

  datatype Quote = Plain | Single | Double

  const Nul: char := '\0'

  /** !\$`\n|&;()<> */
  predicate Meta(c: char) {
    c in {'!', '\\', '$', '`', '\n', '|', '&', ';', '(', ')', '<', '>'}
  }

  predicate Blank(c: char) {
    c == ' ' || c == '\t'
  }

  /** The quoting in force after c. */
  function Toggle(q: Quote, c: char): Quote {
    if c == '\'' && !q.Double? then (if q.Single? then Plain else Single)
    else if c == '"' && !q.Single? then (if q.Double? then Plain else Double)
    else q
  }

  /** c opens or closes a quotation. */
  predicate Quotes(q: Quote, c: char) {
    (c == '\'' && !q.Double?) || (c == '"' && !q.Single?)
  }

  // ---------- The grammar ----------

  /** Empty tokens are dropped. */
  function Token(cur: string): seq<string> {
    if cur == "" then [] else [cur]
  }

  /** The tokens of s from i on, when cur of the current token and the quoting q come from before. */
  function Tokens(s: string, i: nat, cur: string, q: Quote): Option<seq<string>>
    requires i <= |s|
    decreases |s| - i
  {
    if i == |s| then (if q.Plain? then Some(Token(cur)) else None)
    else if Meta(s[i]) then None
    else if Blank(s[i]) && q.Plain? then
      var r := Tokens(s, i + 1, "", Plain);
      if r.None? then None else Some(Token(cur) + r.value)
    else if Quotes(q, s[i]) then Tokens(s, i + 1, cur, Toggle(q, s[i]))
    else Tokens(s, i + 1, cur + [s[i]], q)
  }

  /** The quoting in force before place i. */
  function QuoteAt(s: string, i: nat): Quote
    requires i <= |s|
  {
    if i == 0 then Plain else Toggle(QuoteAt(s, i - 1), s[i - 1])
  }

  /** A command is refused for a metacharacter, quoted or not, an open quotation, or no token. */
  lemma {:induction false} TokensFail(s: string, i: nat, cur: string)
    requires i <= |s|
    ensures Tokens(s, i, cur, QuoteAt(s, i)).None?
      <==> (exists k :: i <= k < |s| && Meta(s[k])) || !QuoteAt(s, |s|).Plain?
    decreases |s| - i
  {
    if i < |s| {
      var q := QuoteAt(s, i);
      if !Meta(s[i]) {
        assert QuoteAt(s, i + 1) == Toggle(q, s[i]);
        if Blank(s[i]) && q.Plain? {
          TokensFail(s, i + 1, "");
        } else if Quotes(q, s[i]) {
          TokensFail(s, i + 1, cur);
        } else {
          TokensFail(s, i + 1, cur + [s[i]]);
        }
        assert (exists k :: i <= k < |s| && Meta(s[k])) <==> (exists k :: i + 1 <= k < |s| && Meta(s[k]));
      }
    }
  }

  /** No token is empty. */
  lemma {:induction false} TokensFull(s: string, i: nat, cur: string, q: Quote)
    requires i <= |s| && Tokens(s, i, cur, q).Some?
    ensures forall k :: 0 <= k < |Tokens(s, i, cur, q).value| ==> Tokens(s, i, cur, q).value[k] != ""
    decreases |s| - i
  {
    if i < |s| {
      if Blank(s[i]) && q.Plain? {
        TokensFull(s, i + 1, "", Plain);
      } else if Quotes(q, s[i]) {
        TokensFull(s, i + 1, cur, Toggle(q, s[i]));
      } else {
        TokensFull(s, i + 1, cur + [s[i]], q);
      }
    }
  }

  // ---------- The printer ----------

  /** A character in quotes that it is not. */
  function Quoted(c: char): string {
    if c == '\'' then ['"', c, '"'] else ['\'', c, '\'']
  }

  function QuotedWord(w: string): string {
    if w == "" then "" else Quoted(w[0]) + QuotedWord(w[1..])
  }

  /** The command of these arguments. */
  function Printed(args: seq<string>): string {
    if args == [] then "" else QuotedWord(args[0]) + " " + Printed(args[1..])
  }

  predicate Printable(args: seq<string>) {
    forall k :: 0 <= k < |args| ==> args[k] != "" && forall j :: 0 <= j < |args[k]| ==> !Meta(args[k][j])
  }

  lemma TokensQuoted(s: string, i: nat, cur: string, c: char)
    requires i + 3 <= |s| && s[i..i + 3] == Quoted(c) && !Meta(c)
    ensures Tokens(s, i, cur, Plain) == Tokens(s, i + 3, cur + [c], Plain)
  {
    assert s[i] == s[i..i + 3][0] && s[i + 1] == s[i..i + 3][1] && s[i + 2] == s[i..i + 3][2];
    var q := Toggle(Plain, s[i]);
    assert Tokens(s, i, cur, Plain) == Tokens(s, i + 1, cur, q);
    assert Tokens(s, i + 1, cur, q) == Tokens(s, i + 2, cur + [c], q);
    assert Tokens(s, i + 2, cur + [c], q) == Tokens(s, i + 3, cur + [c], Plain);
  }

  lemma {:induction false} TokensWord(s: string, i: nat, cur: string, w: string)
    requires i + |QuotedWord(w)| <= |s| && s[i..i + |QuotedWord(w)|] == QuotedWord(w)
    requires forall j :: 0 <= j < |w| ==> !Meta(w[j])
    ensures Tokens(s, i, cur, Plain) == Tokens(s, i + |QuotedWord(w)|, cur + w, Plain)
    decreases |w|
  {
    if w == "" {
      assert cur + w == cur;
    } else {
      WordParts(s, i, cur, w);
      TokensQuoted(s, i, cur, w[0]);
      TokensWord(s, i + 3, cur + [w[0]], w[1..]);
    }
  }

  lemma {:induction false} WordParts(s: string, i: nat, cur: string, w: string)
    requires w != "" && i + |QuotedWord(w)| <= |s| && s[i..i + |QuotedWord(w)|] == QuotedWord(w)
    ensures s[i..i + 3] == Quoted(w[0]) && |QuotedWord(w)| == 3 + |QuotedWord(w[1..])|
    ensures s[i + 3..i + 3 + |QuotedWord(w[1..])|] == QuotedWord(w[1..])
    ensures cur + [w[0]] + w[1..] == cur + w
  {
    var a, b := Quoted(w[0]), QuotedWord(w[1..]);
    assert QuotedWord(w) == a + b && |a| == 3;
    SplitSlice(s, i, a, b);
    TakenNext(cur, w);
  }

  lemma TakenNext(cur: string, w: string)
    requires w != ""
    ensures cur + [w[0]] + w[1..] == cur + w
  {
  }

  lemma SplitSlice(s: string, i: nat, a: string, b: string)
    requires i + |a| + |b| <= |s| && s[i..i + |a + b|] == a + b
    ensures s[i..i + |a|] == a && s[i + |a|..i + |a| + |b|] == b
  {
    assert s[i..i + |a|] == s[i..i + |a + b|][..|a|];
    assert s[i + |a|..i + |a| + |b|] == s[i..i + |a + b|][|a|..];
  }

  lemma SplitTail(s: string, i: nat, a: string, b: string)
    requires i <= |s| && s[i..] == a + " " + b
    ensures i + |a| + 1 <= |s| && s[i..i + |a|] == a && s[i + |a|] == ' ' && s[i + |a| + 1..] == b
  {
  }

  lemma TokensBlank(s: string, e: nat, w: string, rest: seq<string>)
    requires e < |s| && s[e] == ' ' && w != "" && Tokens(s, e + 1, "", Plain) == Some(rest)
    ensures Tokens(s, e, w, Plain) == Some([w] + rest)
  {
  }

  /** Splitting undoes printing. */
  lemma {:induction false} PrintedSplits(s: string, i: nat, args: seq<string>)
    requires Printable(args) && i <= |s| && s[i..] == Printed(args)
    ensures Tokens(s, i, "", Plain) == Some(args)
    decreases |args|
  {
    if args != [] {
      var w, rest := args[0], args[1..];
      PrintedParts(s, i, args);
      PrintedSplits(s, i + |QuotedWord(w)| + 1, rest);
      TokensArgument(s, i, w, rest);
    }
  }

  lemma {:induction false} PrintedParts(s: string, i: nat, args: seq<string>)
    requires args != [] && Printable(args) && i <= |s| && s[i..] == Printed(args)
    ensures var e := i + |QuotedWord(args[0])|;
            && e < |s| && s[i..e] == QuotedWord(args[0]) && s[e] == ' ' && s[e + 1..] == Printed(args[1..])
    ensures Printable(args[1..]) && [args[0]] + args[1..] == args
  {
    SplitTail(s, i, QuotedWord(args[0]), Printed(args[1..]));
  }

  lemma {:induction false} TokensArgument(s: string, i: nat, w: string, rest: seq<string>)
    requires var e := i + |QuotedWord(w)|;
             e < |s| && s[i..e] == QuotedWord(w) && s[e] == ' ' && Tokens(s, e + 1, "", Plain) == Some(rest)
    requires w != "" && forall j :: 0 <= j < |w| ==> !Meta(w[j])
    ensures Tokens(s, i, "", Plain) == Some([w] + rest)
  {
    TokensWord(s, i, "", w);
    assert "" + w == w;
    TokensBlank(s, i + |QuotedWord(w)|, w, rest);
  }

  // ---------- The code ----------

  /** The tokens stand in the buffer below j, one behind the other, each with its zero. */
  ghost predicate Stored(buf: seq<char>, argv: seq<nat>, toks: seq<string>, j: nat) {
    && |argv| == |toks| && j <= |buf|
    && (forall k :: 0 <= k < |argv| ==> StringAt(buf, argv[k], toks[k]) && argv[k] + |toks[k]| < j)
    && (forall k, l :: 0 <= k < l < |argv| ==> argv[k] + |toks[k]| < argv[l])
  }

  /** The C string at a is t. */
  ghost predicate StringAt(buf: seq<char>, a: nat, t: string) {
    a + |t| < |buf| && buf[a..a + |t|] == t && buf[a + |t|] == Nul
  }

  lemma SameBelow(buf: seq<char>, buf': seq<char>, a: nat, e: nat, j: nat)
    requires a <= e < j <= |buf| == |buf'| && buf'[..j] == buf[..j]
    ensures buf'[a..e] == buf[a..e] && buf'[e] == buf[e]
  {
    assert forall i :: 0 <= i < j ==> buf'[i] == buf'[..j][i] == buf[..j][i] == buf[i];
  }

  /** Writing at j or behind keeps what is stored below. */
  lemma StoredKeeps(buf: seq<char>, buf': seq<char>, argv: seq<nat>, toks: seq<string>, j: nat)
    requires Stored(buf, argv, toks, j) && |buf'| == |buf| && buf'[..j] == buf[..j]
    ensures Stored(buf', argv, toks, j)
  {
    forall k | 0 <= k < |argv|
      ensures StringAt(buf', argv[k], toks[k])
    {
      assert StringAt(buf, argv[k], toks[k]);
      SameBelow(buf, buf', argv[k], argv[k] + |toks[k]|, j);
    }
  }

  /** The rest of the tokens, behind those found. */
  function Joined(toks: seq<string>, r: Option<seq<string>>): Option<seq<string>> {
    if r.None? then None else Some(toks + r.value)
  }

  /** _popen_noshell_add_token: what has been written from start on becomes a token. */
  method AddToken(argv: seq<nat>, start: nat, command: array<char>, j: nat, ghost toks: seq<string>)
    returns (argv': seq<nat>, j': nat)
    requires start <= j < command.Length && Stored(command[..], argv, toks, start)
    modifies command
    ensures j' <= j + 1 && j' <= command.Length
    ensures Stored(command[..], argv', toks + Token(old(command[start..j])), j')
    ensures j' == if start < j then j + 1 else j
  {
    ghost var cur, was := command[start..j], command[..];
    if start < j {
      command[j] := Nul;
      assert command[..][..start] == was[..start];
      StoredKeeps(was, command[..], argv, toks, start);
      assert command[..][start..start + |cur|] == cur;
      assert StringAt(command[..], start, cur);
      return argv + [start], j + 1;
    }
    return argv, j;
  }

  ghost predicate OpenAhead(i: nat, cur: string, u: nat) {
    true
  }

  /** With toks found and cur begun, the tokens from i on make up whole. The equation stands under
      a quantifier that only AheadMeans opens, so that the loop need not unfold the grammar. */
  ghost predicate Ahead(s: string, i: nat, cur: string, q: Quote, toks: seq<string>, whole: Option<seq<string>>) {
    i <= |s| && forall u: nat {:trigger OpenAhead(i, cur, u)} :: OpenAhead(i, cur, u) ==>
      whole == Joined(toks, Tokens(s, i, cur, q))
  }

  lemma AheadMeans(s: string, i: nat, cur: string, q: Quote, toks: seq<string>, whole: Option<seq<string>>)
    requires Ahead(s, i, cur, q, toks, whole)
    ensures whole == Joined(toks, Tokens(s, i, cur, q))
  {
    assert OpenAhead(i, cur, 0);
  }

  lemma AheadStart(s: string, whole: Option<seq<string>>)
    requires whole == Tokens(s, 0, "", Plain)
    ensures Ahead(s, 0, "", Plain, [], whole)
  {
    assert whole.Some? ==> [] + whole.value == whole.value;
  }

  /** One character: what is ahead of it tells what is ahead of the next. */
  lemma AheadNext(s: string, i: nat, cur: string, q: Quote, toks: seq<string>, whole: Option<seq<string>>)
    requires Ahead(s, i, cur, q, toks, whole) && i < |s|
    ensures Meta(s[i]) ==> whole == None
    ensures !Meta(s[i]) && Blank(s[i]) && q.Plain? ==> Ahead(s, i + 1, "", q, toks + Token(cur), whole)
    ensures !Meta(s[i]) && Quotes(q, s[i]) ==> Ahead(s, i + 1, cur, Toggle(q, s[i]), toks, whole)
    ensures !Meta(s[i]) && !(Blank(s[i]) && q.Plain?) && !Quotes(q, s[i]) ==>
      Ahead(s, i + 1, cur + [s[i]], q, toks, whole)
  {
    AheadMeans(s, i, cur, q, toks, whole);
    if !Meta(s[i]) && Blank(s[i]) && q.Plain? {
      var r := Tokens(s, i + 1, "", Plain);
      if r.Some? {
        assert toks + (Token(cur) + r.value) == toks + Token(cur) + r.value;
      }
    }
  }

  lemma AheadEnd(s: string, cur: string, q: Quote, toks: seq<string>, whole: Option<seq<string>>)
    requires Ahead(s, |s|, cur, q, toks, whole)
    ensures whole == if q.Plain? then Some(toks + Token(cur)) else None
  {
    AheadMeans(s, |s|, cur, q, toks, whole);
  }

  /** command[j++] = c. */
  method Append(command: array<char>, start: nat, j: nat, c: char, ghost argv: seq<nat>, ghost toks: seq<string>)
    requires start <= j < command.Length && Stored(command[..], argv, toks, start)
    modifies command
    ensures Stored(command[..], argv, toks, start) && command[start..j + 1] == old(command[start..j]) + [c]
  {
    ghost var was := command[..];
    command[j] := c;
    assert command[..][..start] == was[..start];
    StoredKeeps(was, command[..], argv, toks, start);
  }

  /** popen_noshell_split_command_to_argv: the tokens stand in the buffer at the places of argv,
      unless the command is refused. */
  method Split(original: string) returns (argv: Option<seq<nat>>, command: array<char>)
    ensures fresh(command) && command.Length == |original| + 1
    ensures argv.None? <==> Tokens(original, 0, "", Plain) in {None, Some([])}
    ensures argv.Some? ==> Stored(command[..], argv.value, Tokens(original, 0, "", Plain).value, command.Length)
  {
    command := new char[|original| + 1](_ => Nul);
    var start: Option<nat>, places: seq<nat>, q, j: nat := None, [], Plain, 0;
    ghost var toks: seq<string>, cur, whole := [], "", Tokens(original, 0, "", Plain);
    AheadStart(original, whole);
    for i := 0 to |original|
      invariant j <= i && fresh(command) && command.Length == |original| + 1
      invariant start.Some? ==> start.value <= j && cur == command[start.value..j]
      invariant start.None? ==> cur == ""
      invariant Stored(command[..], places, toks, if start.Some? then start.value else j)
      invariant Ahead(original, i, cur, q, toks, whole)
    {
      if start.None? {
        start := Some(j);
      }
      AheadNext(original, i, cur, q, toks, whole);
      var c := original[i];
      if Meta(c) {
        return None, command;
      }
      if Blank(c) && q.Plain? {
        places, j := AddToken(places, start.value, command, j, toks);
        toks := toks + Token(cur);
        start, cur := None, "";
      } else if Quotes(q, c) {
        q := Toggle(q, c);
      } else {
        Append(command, start.value, j, c, places, toks);
        j, cur := j + 1, cur + [c];
      }
    }
    AheadEnd(original, cur, q, toks, whole);
    if !q.Plain? {
      return None, command;
    }
    if start.Some? {
      places, j := AddToken(places, start.value, command, j, toks);
      toks := toks + Token(cur);
    } else {
      assert toks + [] == toks;
    }
    if |places| == 0 {
      return None, command;
    }
    return Some(places), command;
  }
}
