/** The check that a `cfg` predicate holds only under `test`, read off the predicate's text. */
module CfgGate {
  import opened Options

  // ----- the code, on text

  /** Unicode white space, what `trim` removes. */
  predicate IsSpace(c: char) {
    || c == ' ' || '\t' <= c <= '\r' || c == '\U{85}' || c == '\U{A0}' || c == '\U{1680}'
    || '\U{2000}' <= c <= '\U{200A}' || c == '\U{2028}' || c == '\U{2029}' || c == '\U{202F}'
    || c == '\U{205F}' || c == '\U{3000}'
  }

  function TrimStart(s: string): string {
    if s != "" && IsSpace(s[0]) then TrimStart(s[1..]) else s
  }

  function TrimEnd(s: string): string {
    if s != "" && IsSpace(s[|s| - 1]) then TrimEnd(s[..|s| - 1]) else s
  }

  function Trim(s: string): (t: string)
    ensures |t| <= |s|
  {
    TrimLength(s);
    TrimEnd(TrimStart(s))
  }

  lemma TrimLength(s: string)
    ensures |TrimStart(s)| <= |s| && |TrimEnd(TrimStart(s))| <= |s|
  {
    TrimStartLength(s);
    TrimEndLength(TrimStart(s));
  }

  lemma TrimStartLength(s: string)
    ensures |TrimStart(s)| <= |s|
  {}

  lemma TrimEndLength(s: string)
    ensures |TrimEnd(s)| <= |s|
  {}

  /** The parentheses of `s` pair up, `open` of them being open before it. */
  predicate Closes(s: string, open: nat) {
    if s == "" then open == 0
    else if s[0] == '(' then Closes(s[1..], open + 1)
    else if s[0] == ')' then open > 0 && Closes(s[1..], open - 1)
    else Closes(s[1..], open)
  }

  /** `s` cut at its commas outside parentheses; `None` where the unsigned depth would go below zero. */
  function Split(s: string, depth: nat, part: string): Option<seq<string>> {
    if s == "" then Some([part])
    else if s[0] == '(' then Split(s[1..], depth + 1, part + [s[0]])
    else if s[0] == ')' then (if depth == 0 then None else Split(s[1..], depth - 1, part + [s[0]]))
    else if s[0] == ',' && depth == 0 then
      var rest := Split(s[1..], 0, "");
      if rest.None? then None else Some([part] + rest.value)
    else Split(s[1..], depth, part + [s[0]])
  }

  function DropBlank(parts: seq<string>): seq<string> {
    if parts == [] then []
    else if Trim(parts[0]) == "" then DropBlank(parts[1..])
    else [parts[0]] + DropBlank(parts[1..])
  }

  /** What a call can end in: an answer, or the underflow of a depth counter. */
  datatype Verdict = Answer(yes: bool) | Underflow

  predicate HasCall(s: string, name: string) {
    |s| > |name| + 1 && s[..|name|] == name && s[|name|] == '(' && s[|s| - 1] == ')'
  }

  function Inner(s: string, name: string): string
    requires HasCall(s, name)
  {
    s[|name| + 1..|s| - 1]
  }

  lemma {:induction false} SplitLengths(s: string, depth: nat, part: string, limit: nat)
    requires |s| + |part| <= limit
    ensures Split(s, depth, part).Some? ==>
              forall p :: p in Split(s, depth, part).value ==> |p| <= limit
    decreases |s|
  {
    if s != "" {
      if s[0] == ')' {
        if depth > 0 {
          SplitLengths(s[1..], depth - 1, part + [s[0]], limit);
        }
      } else if s[0] == ',' && depth == 0 {
        SplitLengths(s[1..], 0, "", limit);
      } else {
        SplitLengths(s[1..], if s[0] == '(' then depth + 1 else depth, part + [s[0]], limit);
      }
    }
  }

  lemma {:induction false} DropBlankKeeps(parts: seq<string>)
    ensures forall p :: p in DropBlank(parts) ==> p in parts
  {
    if parts != [] {
      DropBlankKeeps(parts[1..]);
    }
  }

  /** The arguments of a call, with the blank ones left out. */
  function Args(inner: string): (args: Option<seq<string>>)
    ensures args.Some? ==> forall p :: p in args.value ==> |p| <= |inner|
  {
    var parts := Split(inner, 0, "");
    if parts.None? then None
    else
      SplitLengths(inner, 0, "", |inner|);
      DropBlankKeeps(parts.value);
      Some(DropBlank(parts.value))
  }

  /** Whether `s`, the text of a `cfg` predicate, is seen to hold only under `test`. */
  function RequiresTest(s: string): Verdict
    decreases |s|
  {
    var p := Trim(s);
    if !Closes(p, 0) then Answer(false)
    else if p == "test" then Answer(true)
    else if HasCall(p, "all") then
      var args := Args(Inner(p, "all"));
      if args.None? then Underflow else AnyRequires(args.value, |p|)
    else if HasCall(p, "any") then
      var args := Args(Inner(p, "any"));
      if args.None? then Underflow else if args.value == [] then Answer(false) else AllRequire(args.value, |p|)
    else Answer(false)
  }

  function AnyRequires(args: seq<string>, limit: nat): Verdict
    requires forall a :: a in args ==> |a| < limit
    decreases limit, |args|
  {
    if args == [] then Answer(false)
    else
      assert args[0] in args;
      var first := RequiresTest(args[0]);
      if first == Answer(false) then AnyRequires(args[1..], limit) else first
  }

  function AllRequire(args: seq<string>, limit: nat): Verdict
    requires forall a :: a in args ==> |a| < limit
    decreases limit, |args|
  {
    if args == [] then Answer(true)
    else
      assert args[0] in args;
      var first := RequiresTest(args[0]);
      if first == Answer(true) then AllRequire(args[1..], limit) else first
  }

  // ----- predicates as trees, with the layout they are written in

  datatype Op = All | Any | Not

  /** A predicate with the white space around it. */
  datatype Cfg = Cfg(before: string, node: Node, after: string)

  /** An option, or a group. `gap` is the space between a group's name and its parenthesis. A group
      with arguments may end in a comma; `blank` is the space after it, or all there is between the
      parentheses of a group without arguments. */
  datatype Node = Name(name: string) | Group(op: Op, gap: string, args: seq<Cfg>, trailing: bool, blank: string)

  function NameOf(op: Op): string {
    match op
    case All => "all"
    case Any => "any"
    case Not => "not"
  }

  function Print(c: Cfg): string { c.before + PrintNode(c.node) + c.after }

  function PrintNode(n: Node): string {
    match n
    case Name(name) => name
    case Group(op, gap, args, trailing, blank) => NameOf(op) + gap + "(" + Body(args, trailing, blank) + ")"
  }

  function Body(args: seq<Cfg>, trailing: bool, blank: string): string {
    if args == [] then blank
    else Print(args[0]) + (if |args| > 1 then "," + Body(args[1..], trailing, blank)
                           else if trailing then "," + blank else "")
  }

  predicate Blank(s: string) { forall i :: 0 <= i < |s| ==> IsSpace(s[i]) }

  predicate Plain(s: string) { forall i :: 0 <= i < |s| ==> s[i] != '(' && s[i] != ')' && s[i] != ',' }

  /** The text of an option, as the scanner hands it over with any string value blanked: something,
      with no parenthesis or comma in it and no space at either end. */
  predicate IsOption(name: string) {
    name != "" && Plain(name) && !IsSpace(name[0]) && !IsSpace(name[|name| - 1])
  }

  predicate Written(c: Cfg) {
    && Blank(c.before) && Blank(c.after)
    && match c.node
       case Name(name) => IsOption(name)
       case Group(op, gap, args, _, blank) =>
         && Blank(gap) && Blank(blank) && (op == Not ==> |args| == 1)
         && forall i :: 0 <= i < |args| ==> Written(args[i])
  }

  /** What a predicate means: whether it holds when exactly the options of `set` are set. */
  predicate Holds(c: Cfg, options: set<string>) {
    match c.node
    case Name(name) => name in options
    case Group(All, _, args, _, _) => forall i :: 0 <= i < |args| ==> Holds(args[i], options)
    case Group(Any, _, args, _, _) => exists i :: 0 <= i < |args| && Holds(args[i], options)
    case Group(Not, _, args, _, _) => forall i :: 0 <= i < |args| ==> !Holds(args[i], options)
  }

  /** The rule the check applies, on trees: `test`, an `all` with such an argument, or an `any` of
      them. A name with space before its parenthesis is not taken for a group. */
  predicate Gated(c: Cfg) {
    match c.node
    case Name(name) => name == "test"
    case Group(All, gap, args, _, _) => gap == "" && exists i :: 0 <= i < |args| && Gated(args[i])
    case Group(Any, gap, args, _, _) => gap == "" && args != [] && forall i :: 0 <= i < |args| ==> Gated(args[i])
    case Group(Not, _, _, _, _) => false
  }

  /** The rule is sound: a gated predicate holds only where `test` is set. */
  lemma {:induction false} GatedIsSound(c: Cfg, options: set<string>)
    requires Gated(c) && Holds(c, options)
    ensures "test" in options
  {
    match c.node
    case Name(name) =>
    case Group(All, _, args, _, _) =>
      var i :| 0 <= i < |args| && Gated(args[i]);
      GatedIsSound(args[i], options);
    case Group(Any, _, args, _, _) =>
      var i :| 0 <= i < |args| && Holds(args[i], options);
      GatedIsSound(args[i], options);
    case Group(Not, _, _, _, _) =>
  }

  /** No `not`, no `any` of nothing, and no space before a parenthesis. */
  predicate Positive(c: Cfg) {
    c.node.Group? ==>
      && c.node.op != Not && (c.node.op == Any ==> c.node.args != []) && c.node.gap == ""
      && forall i :: 0 <= i < |c.node.args| ==> Positive(c.node.args[i])
  }

  /** The options a predicate mentions. */
  function Mentioned(c: Cfg): set<string> {
    match c.node
    case Name(name) => {name}
    case Group(_, _, args, _, _) => set i, name | 0 <= i < |args| && name in Mentioned(args[i]) :: name
  }

  /** A positive predicate the rule turns down holds with every option set but `test`. */
  lemma {:induction false} HoldsWithoutTest(c: Cfg, options: set<string>)
    requires Positive(c) && !Gated(c) && Mentioned(c) - {"test"} <= options
    ensures Holds(c, options)
  {
    if c.node.Group? {
      var args := c.node.args;
      forall i | 0 <= i < |args| && !Gated(args[i]) ensures Holds(args[i], options) {
        HoldsWithoutTest(args[i], options);
      }
    }
  }

  /** A predicate the rule accepts mentions `test`: an `any` of nothing is turned down. */
  lemma {:induction false} GatedMentionsTest(c: Cfg)
    requires Gated(c)
    ensures "test" in Mentioned(c)
  {
    if c.node.Group? {
      var i :| 0 <= i < |c.node.args| && Gated(c.node.args[i]);
      GatedMentionsTest(c.node.args[i]);
    }
  }

  /** On positive predicates the rule misses nothing: it accepts exactly those that hold only under
      `test`. */
  lemma GatedIsExact(c: Cfg)
    requires Positive(c)
    ensures Gated(c) <==> forall options: set<string> :: Holds(c, options) ==> "test" in options
  {
    if Gated(c) {
      forall options: set<string> | Holds(c, options) ensures "test" in options {
        GatedIsSound(c, options);
      }
    } else {
      HoldsWithoutTest(c, Mentioned(c) - {"test"});
    }
  }

  /** `d` is `c` with other texts for its options and layout, as when the scanner has blanked the string
      values and comments of `c`: the option `test` is kept, no other becomes it, and no gap opens or
      closes. */
  ghost predicate Alike(c: Cfg, d: Cfg)
    decreases c.node
  {
    match c.node
    case Name(name) => d.node.Name? && (name == "test" <==> d.node.name == "test")
    case Group(op, gap, args, _, _) =>
      && d.node.Group? && d.node.op == op && (gap == "" <==> d.node.gap == "")
      && |d.node.args| == |args| && forall i :: 0 <= i < |args| ==> Alike(args[i], d.node.args[i])
  }

  /** Only `test` matters to the rule, not what else options are called. */
  lemma {:induction false} AlikeKeepsGated(c: Cfg, d: Cfg)
    requires Alike(c, d)
    ensures Gated(c) <==> Gated(d)
    decreases c.node
  {
    if c.node.Group? {
      forall i | 0 <= i < |c.node.args| ensures Gated(c.node.args[i]) <==> Gated(d.node.args[i]) {
        AlikeKeepsGated(c.node.args[i], d.node.args[i]);
      }
    }
  }

  // ----- reading the text of a tree back

  lemma {:induction false} PlainCloses(s: string, rest: string, open: nat)
    requires Plain(s)
    ensures Closes(s + rest, open) == Closes(rest, open)
    decreases |s|
  {
    if s == "" {
      assert s + rest == rest;
    } else {
      assert (s + rest)[1..] == s[1..] + rest;
      PlainCloses(s[1..], rest, open);
    }
  }

  lemma BlankIsPlain(s: string)
    requires Blank(s)
    ensures Plain(s)
  {}

  lemma NameIsPlain(op: Op)
    ensures Plain(NameOf(op))
  {}

  /** The parentheses of a printed predicate pair up on their own. */
  lemma {:induction false} PrintCloses(c: Cfg, rest: string, open: nat)
    requires Written(c)
    ensures Closes(Print(c) + rest, open) == Closes(rest, open)
    decreases c
  {
    hide IsSpace;
    var node := PrintNode(c.node);
    BlankIsPlain(c.before);
    BlankIsPlain(c.after);
    assert Print(c) + rest == c.before + (node + (c.after + rest));
    PlainCloses(c.before, node + (c.after + rest), open);
    PlainCloses(c.after, rest, open);
    NodeCloses(c.node, c.after + rest, open);
  }

  lemma {:induction false} NodeCloses(n: Node, rest: string, open: nat)
    requires Written(Cfg("", n, ""))
    ensures Closes(PrintNode(n) + rest, open) == Closes(rest, open)
    decreases n
  {
    hide IsSpace;
    match n
    case Name(name) => PlainCloses(name, rest, open);
    case Group(op, gap, args, trailing, blank) =>
      var body, name := Body(args, trailing, blank), NameOf(op) + gap;
      NameIsPlain(op);
      BlankIsPlain(gap);
      assert PrintNode(n) + rest == name + ("(" + (body + (")" + rest)));
      PlainCloses(name, "(" + (body + (")" + rest)), open);
      assert ("(" + (body + (")" + rest)))[1..] == body + (")" + rest);
      BodyCloses(args, trailing, blank, ")" + rest, open + 1);
      assert (")" + rest)[1..] == rest;
  }

  lemma {:induction false} BodyCloses(args: seq<Cfg>, trailing: bool, blank: string, rest: string, open: nat)
    requires Blank(blank) && forall i :: 0 <= i < |args| ==> Written(args[i])
    ensures Closes(Body(args, trailing, blank) + rest, open) == Closes(rest, open)
    decreases args
  {
    hide IsSpace;
    BlankIsPlain(blank);
    if args == [] {
      PlainCloses(blank, rest, open);
    } else {
      var first := Print(args[0]);
      if |args| > 1 {
        var more := Body(args[1..], trailing, blank);
        assert Body(args, trailing, blank) + rest == first + ("," + (more + rest));
        PrintCloses(args[0], "," + (more + rest), open);
        assert ("," + (more + rest))[1..] == more + rest;
        BodyCloses(args[1..], trailing, blank, rest, open);
      } else if trailing {
        assert Body(args, trailing, blank) + rest == first + ("," + (blank + rest));
        PrintCloses(args[0], "," + (blank + rest), open);
        assert ("," + (blank + rest))[1..] == blank + rest;
        PlainCloses(blank, rest, open);
      } else {
        assert Body(args, trailing, blank) + rest == first + rest;
        PrintCloses(args[0], rest, open);
      }
    }
  }

  lemma {:induction false} PlainSplit(s: string, rest: string, depth: nat, part: string)
    requires Plain(s)
    ensures Split(s + rest, depth, part) == Split(rest, depth, part + s)
    decreases |s|
  {
    if s == "" {
      assert s + rest == rest && part + s == part;
    } else {
      assert (s + rest)[1..] == s[1..] + rest;
      assert part + [s[0]] + s[1..] == part + s;
      PlainSplit(s[1..], rest, depth, part + [s[0]]);
    }
  }

  /** A printed predicate is never cut: its commas are all inside its own parentheses. */
  lemma {:induction false} PrintSplit(c: Cfg, rest: string, depth: nat, part: string)
    requires Written(c)
    ensures Split(Print(c) + rest, depth, part) == Split(rest, depth, part + Print(c))
    decreases c
  {
    hide IsSpace, Split;
    var node := PrintNode(c.node);
    BlankIsPlain(c.before);
    BlankIsPlain(c.after);
    assert Print(c) + rest == c.before + (node + (c.after + rest));
    PlainSplit(c.before, node + (c.after + rest), depth, part);
    NodeSplit(c.node, c.after + rest, depth, part + c.before);
    PlainSplit(c.after, rest, depth, part + c.before + node);
    assert part + c.before + node + c.after == part + Print(c);
  }

  lemma {:induction false} NodeSplit(n: Node, rest: string, depth: nat, part: string)
    requires Written(Cfg("", n, ""))
    ensures Split(PrintNode(n) + rest, depth, part) == Split(rest, depth, part + PrintNode(n))
    decreases n
  {
    hide IsSpace;
    match n
    case Name(name) => PlainSplit(name, rest, depth, part);
    case Group(op, gap, args, trailing, blank) =>
      var body, name := Body(args, trailing, blank), NameOf(op) + gap;
      NameIsPlain(op);
      BlankIsPlain(gap);
      assert PrintNode(n) + rest == name + ("(" + (body + (")" + rest)));
      PlainSplit(name, "(" + (body + (")" + rest)), depth, part);
      assert ("(" + (body + (")" + rest)))[1..] == body + (")" + rest);
      BodySplit(args, trailing, blank, ")" + rest, depth + 1, part + name + "(");
      assert (")" + rest)[1..] == rest;
      assert part + name + "(" + body + ")" == part + PrintNode(n);
  }

  lemma {:induction false} BodySplit(args: seq<Cfg>, trailing: bool, blank: string, rest: string, depth: nat, part: string)
    requires Blank(blank) && depth > 0 && forall i :: 0 <= i < |args| ==> Written(args[i])
    ensures Split(Body(args, trailing, blank) + rest, depth, part) == Split(rest, depth, part + Body(args, trailing, blank))
    decreases args
  {
    hide IsSpace;
    BlankIsPlain(blank);
    if args == [] {
      PlainSplit(blank, rest, depth, part);
    } else {
      var first := Print(args[0]);
      if |args| > 1 {
        var more := Body(args[1..], trailing, blank);
        assert Body(args, trailing, blank) + rest == first + ("," + (more + rest));
        PrintSplit(args[0], "," + (more + rest), depth, part);
        assert ("," + (more + rest))[1..] == more + rest;
        BodySplit(args[1..], trailing, blank, rest, depth, part + first + ",");
        assert part + first + "," + more == part + Body(args, trailing, blank);
      } else if trailing {
        assert Body(args, trailing, blank) + rest == first + ("," + (blank + rest));
        PrintSplit(args[0], "," + (blank + rest), depth, part);
        assert ("," + (blank + rest))[1..] == blank + rest;
        PlainSplit(blank, rest, depth, part + first + ",");
        assert part + first + "," + blank == part + Body(args, trailing, blank);
      } else {
        assert Body(args, trailing, blank) == first;
        PrintSplit(args[0], rest, depth, part);
      }
    }
  }

  function PrintAll(args: seq<Cfg>): (r: seq<string>)
    ensures |r| == |args|
  {
    if args == [] then [] else [Print(args[0])] + PrintAll(args[1..])
  }

  /** Cut at its top-level commas, a group's text gives its arguments' texts, and perhaps a blank. */
  lemma {:induction false} BodySplitTop(args: seq<Cfg>, trailing: bool, blank: string)
    requires Blank(blank) && forall i :: 0 <= i < |args| ==> Written(args[i])
    ensures Split(Body(args, trailing, blank), 0, "")
            == Some(PrintAll(args) + (if args == [] || trailing then [blank] else []))
    decreases |args|
  {
    hide IsSpace;
    BlankIsPlain(blank);
    assert "" + blank == blank + "" == blank;
    PlainSplit(blank, "", 0, "");
    assert Split(blank, 0, "") == Some([blank]);
    if args == [] {
      assert PrintAll(args) + [blank] == [blank];
    } else {
      var first := Print(args[0]);
      assert "" + first == first + "" == first;
      if |args| > 1 {
        var more := Body(args[1..], trailing, blank);
        assert Body(args, trailing, blank) == first + ("," + more);
        PrintSplit(args[0], "," + more, 0, "");
        assert ("," + more)[1..] == more;
        BodySplitTop(args[1..], trailing, blank);
        var end := if trailing then [blank] else [];
        assert Split("," + more, 0, first) == Some([first] + (PrintAll(args[1..]) + end));
        assert [first] + (PrintAll(args[1..]) + end) == PrintAll(args) + end;
      } else if trailing {
        assert Body(args, trailing, blank) == first + ("," + blank);
        PrintSplit(args[0], "," + blank, 0, "");
        assert ("," + blank)[1..] == blank;
        assert PrintAll(args) + [blank] == [first] + [blank];
      } else {
        assert Body(args, trailing, blank) == first;
        PrintSplit(args[0], "", 0, "");
        assert PrintAll(args) + [] == [first];
      }
    }
  }

  lemma {:induction false} TrimStartBlank(b: string, t: string)
    requires Blank(b) && t != "" && !IsSpace(t[0])
    ensures TrimStart(b + t) == t
  {
    if b == "" {
      assert b + t == t;
    } else {
      assert (b + t)[1..] == b[1..] + t;
      TrimStartBlank(b[1..], t);
    }
  }

  lemma {:induction false} TrimEndBlank(t: string, a: string)
    requires Blank(a) && t != "" && !IsSpace(t[|t| - 1])
    ensures TrimEnd(t + a) == t
  {
    if a == "" {
      assert t + a == t;
    } else {
      assert (t + a)[..|t + a| - 1] == t + a[..|a| - 1];
      TrimEndBlank(t, a[..|a| - 1]);
    }
  }

  lemma {:induction false} TrimBlank(b: string)
    requires Blank(b)
    ensures Trim(b) == ""
  {
    if b != "" {
      TrimBlank(b[1..]);
    }
  }

  lemma NodeEnds(n: Node)
    requires Written(Cfg("", n, ""))
    ensures var t := PrintNode(n); t != "" && !IsSpace(t[0]) && !IsSpace(t[|t| - 1])
  {}

  lemma TrimPrint(c: Cfg)
    requires Written(c)
    ensures Trim(Print(c)) == PrintNode(c.node) != ""
  {
    var t := PrintNode(c.node);
    NodeEnds(c.node);
    assert Print(c) == c.before + (t + c.after);
    TrimStartBlank(c.before, t + c.after);
    TrimEndBlank(t, c.after);
  }

  lemma {:induction false} ArgsOfBody(args: seq<Cfg>, trailing: bool, blank: string)
    requires Blank(blank) && forall i :: 0 <= i < |args| ==> Written(args[i])
    ensures Args(Body(args, trailing, blank)) == Some(PrintAll(args))
  {
    hide IsSpace, Split, Trim;
    BodySplitTop(args, trailing, blank);
    TrimBlank(blank);
    DropNothing(args, if args == [] || trailing then [blank] else []);
  }

  lemma {:induction false} DropNothing(args: seq<Cfg>, extra: seq<string>)
    requires forall i :: 0 <= i < |args| ==> Written(args[i])
    requires extra == [] || (|extra| == 1 && Trim(extra[0]) == "")
    ensures DropBlank(PrintAll(args) + extra) == PrintAll(args)
  {
    hide IsSpace, Trim, Print;
    if args == [] {
      assert PrintAll(args) + extra == extra;
    } else {
      TrimPrint(args[0]);
      assert (PrintAll(args) + extra)[1..] == PrintAll(args[1..]) + extra;
      DropNothing(args[1..], extra);
    }
  }

  /** On the text of any predicate tree, whatever the space in it, the check answers exactly what the
      rule says, and no depth counter goes below zero. */
  lemma {:induction false} ReadsTheTree(c: Cfg)
    requires Written(c)
    ensures RequiresTest(Print(c)) == Answer(Gated(c))
    decreases c
  {
    hide IsSpace, Trim, Args, Print, HasCall, Inner, AnyRequires, AllRequire;
    var p := PrintNode(c.node);
    TrimPrint(c);
    assert Closes(p, 0) by {
      assert p + "" == p;
      NodeCloses(c.node, "", 0);
    }
    match c.node
    case Name(name) => NameIsNoCall(name);
    case Group(op, gap, args, trailing, blank) =>
      GroupIsCall(c.node);
      ArgsOfBody(args, trailing, blank);
      if gap == "" && op == All {
        AnyReadsTheTree(args, |p|);
      } else if gap == "" && op == Any {
        AllReadsTheTree(args, |p|);
      }
  }

  lemma NameIsNoCall(name: string)
    requires IsOption(name)
    ensures !HasCall(name, "all") && !HasCall(name, "any")
  {}

  lemma GroupIsCall(n: Node)
    requires n.Group? && Blank(n.gap)
    ensures PrintNode(n) != "test"
    ensures HasCall(PrintNode(n), "all") <==> n.op == All && n.gap == ""
    ensures HasCall(PrintNode(n), "any") <==> n.op == Any && n.gap == ""
    ensures n.op != Not && n.gap == "" ==> Inner(PrintNode(n), NameOf(n.op)) == Body(n.args, n.trailing, n.blank)
  {
    var p := PrintNode(n);
    assert p[..3] == NameOf(n.op) && p[3] == if n.gap == "" then '(' else n.gap[0];
  }

  lemma {:induction false} AnyReadsTheTree(args: seq<Cfg>, limit: nat)
    requires forall i :: 0 <= i < |args| ==> Written(args[i])
    requires forall a :: a in PrintAll(args) ==> |a| < limit
    ensures AnyRequires(PrintAll(args), limit) == Answer(exists i :: 0 <= i < |args| && Gated(args[i]))
    decreases args
  {
    hide RequiresTest, Print, Gated, Written;
    if args != [] {
      ReadsTheTree(args[0]);
      assert PrintAll(args)[1..] == PrintAll(args[1..]);
      AnyReadsTheTree(args[1..], limit);
      assert forall i :: 0 < i < |args| ==> args[i] == args[1..][i - 1];
    }
  }

  lemma {:induction false} AllReadsTheTree(args: seq<Cfg>, limit: nat)
    requires forall i :: 0 <= i < |args| ==> Written(args[i])
    requires forall a :: a in PrintAll(args) ==> |a| < limit
    ensures AllRequire(PrintAll(args), limit) == Answer(forall i :: 0 <= i < |args| ==> Gated(args[i]))
    decreases args
  {
    hide RequiresTest, Print, Gated, Written;
    if args != [] {
      ReadsTheTree(args[0]);
      assert PrintAll(args)[1..] == PrintAll(args[1..]);
      AllReadsTheTree(args[1..], limit);
      assert forall i :: 0 < i < |args| ==> args[i] == args[1..][i - 1];
    }
  }

  /** Space before its parenthesis, or `not` for its name, and a group is refused whatever is in it. */
  lemma RefusedGroups(c: Cfg)
    requires Written(c) && c.node.Group? && (c.node.gap != "" || c.node.op == Not)
    ensures RequiresTest(Print(c)) == Answer(false)
  {
    hide RequiresTest, Print, Written;
    ReadsTheTree(c);
  }

  /** So a predicate the check takes for test-only is: every configuration it holds in sets `test`.
      `c` is the predicate as the program has it, `d` as the scanner hands it to the check. */
  lemma RequiresTestIsSound(c: Cfg, d: Cfg, options: set<string>)
    requires Alike(c, d) && Written(d) && RequiresTest(Print(d)) == Answer(true) && Holds(c, options)
    ensures "test" in options
  {
    ReadsTheTree(d);
    AlikeKeepsGated(c, d);
    GatedIsSound(c, options);
  }

  // ----- white space, and the layouts it allows

  /** The ASCII characters trimmed: tab, line feed, vertical tab, form feed, carriage return, space. */
  lemma AsciiSpaces(c: char)
    requires c < '\U{80}'
    ensures IsSpace(c) <==> c in [' ', '\t', '\n', '\U{0B}', '\U{0C}', '\r']
  {}

  lemma {:induction false} TrimStartCuts(s: string) returns (before: string)
    ensures Blank(before) && s == before + TrimStart(s) && (TrimStart(s) != "" ==> !IsSpace(TrimStart(s)[0]))
  {
    if s != "" && IsSpace(s[0]) {
      before := TrimStartCuts(s[1..]);
      before := [s[0]] + before;
    } else {
      before := "";
    }
  }

  lemma {:induction false} TrimEndCuts(s: string) returns (after: string)
    ensures Blank(after) && s == TrimEnd(s) + after && (TrimEnd(s) != "" ==> !IsSpace(TrimEnd(s)[|TrimEnd(s)| - 1]))
  {
    if s != "" && IsSpace(s[|s| - 1]) {
      after := TrimEndCuts(s[..|s| - 1]);
      after := after + [s[|s| - 1]];
    } else {
      after := "";
    }
  }

  /** Trimming takes white space off both ends, and all of it. */
  lemma TrimCuts(s: string) returns (before: string, after: string)
    ensures Blank(before) && Blank(after) && s == before + Trim(s) + after
    ensures Trim(s) != "" ==> !IsSpace(Trim(s)[0]) && !IsSpace(Trim(s)[|Trim(s)| - 1])
  {
    hide IsSpace;
    before := TrimStartCuts(s);
    after := TrimEndCuts(TrimStart(s));
  }

  /** An everyday layout, character by character. */
  lemma SpacedOutPredicate()
    ensures RequiresTest(" all(unix,\n test)\n") == Answer(true)
    ensures RequiresTest(" any(unix,\n test)\n") == Answer(false)
  {
    hide RequiresTest, Written, IsSpace, Print, NameOf;
    EverydayOptions();
    var unix, test := Cfg("", Name("unix"), ""), Cfg("\n ", Name("test"), "");
    TwoArgs(All, unix, test);
    TwoArgs(Any, unix, test);
    PrintedOptions();
    Texts();
  }

  lemma PrintedOptions()
    ensures Print(Cfg("", Name("unix"), "")) == "unix" && Print(Cfg("\n ", Name("test"), "")) == "\n test"
  {
    assert "" + "unix" + "" == "unix";
    assert "\n " + "test" + "" == "\n test";
  }

  lemma Texts()
    ensures " " + NameOf(All) + "(" + "unix" + "," + "\n test" + ")" + "\n" == " all(unix,\n test)\n"
    ensures " " + NameOf(Any) + "(" + "unix" + "," + "\n test" + ")" + "\n" == " any(unix,\n test)\n"
  {}

  lemma EverydayOptions()
    ensures Written(Cfg("", Name("unix"), "")) && Written(Cfg("\n ", Name("test"), ""))
  {}

  lemma TwoArgs(op: Op, a: Cfg, b: Cfg)
    requires Written(a) && Written(b) && !Gated(a) && Gated(b) && op != Not
    ensures RequiresTest(" " + NameOf(op) + "(" + Print(a) + "," + Print(b) + ")" + "\n") == Answer(op == All)
  {
    hide RequiresTest, IsSpace;
    var c := Cfg(" ", Group(op, "", [a, b], false, ""), "\n");
    assert Written(c) by {
      OneSpace();
    }
    hide Written, Print;
    ReadsTheTree(c);
    TwoArgsText(op, a, b);
    assert [a, b][0] == a && [a, b][1] == b;
  }

  lemma TwoArgsText(op: Op, a: Cfg, b: Cfg)
    ensures Print(Cfg(" ", Group(op, "", [a, b], false, ""), "\n"))
            == " " + NameOf(op) + "(" + Print(a) + "," + Print(b) + ")" + "\n"
  {
    assert [a, b][1..] == [b];
    assert Body([b], false, "") == Print(b);
    var first, second := Print(a), Print(b);
    assert Body([a, b], false, "") == first + ("," + second);
    hide Print, Body;
    assert NameOf(op) + "" + "(" + (first + ("," + second)) + ")" == NameOf(op) + "(" + first + "," + second + ")";
  }

  lemma OneSpace()
    ensures Blank(" ") && Blank("\n") && Blank("")
  {}

  // ----- when the depth counter underflows

  /** Opening less closing parentheses. */
  function Surplus(s: string): int {
    if s == "" then 0 else (if s[0] == '(' then 1 else if s[0] == ')' then -1 else 0) + Surplus(s[1..])
  }

  /** Somewhere in `s` more parentheses have closed than had opened, `depth` being open before it. */
  ghost predicate Dips(s: string, depth: nat) { exists k :: 0 <= k <= |s| && depth + Surplus(s[..k]) < 0 }

  /** Cutting fails exactly on text whose parentheses dip below where it starts. */
  lemma {:induction false} SplitFailsOnDips(s: string, depth: nat, part: string)
    ensures Split(s, depth, part).None? <==> Dips(s, depth)
    decreases |s|
  {
    if s != "" {
      var step := if s[0] == '(' then 1 else if s[0] == ')' then -1 else 0;
      forall k | 1 <= k <= |s| ensures Surplus(s[..k]) == step + Surplus(s[1..][..k - 1]) {
        assert s[..k][1..] == s[1..][..k - 1];
      }
      if depth + step < 0 {
        assert Surplus(s[..1]) == step + Surplus(s[1..][..0]);
      } else {
        DipsStep(s, depth, step);
        if s[0] == ',' && depth == 0 {
          SplitFailsOnDips(s[1..], 0, "");
        } else {
          SplitFailsOnDips(s[1..], depth + step, part + [s[0]]);
        }
      }
    }
  }

  /** Parentheses pair up exactly if they are as many each way and never dip below where they start. */
  lemma {:induction false} ClosesExactly(s: string, open: nat)
    ensures Closes(s, open) <==> open + Surplus(s) == 0 && !Dips(s, open)
    decreases |s|
  {
    if s == "" {
      assert s[..0] == "";
    } else {
      var step := if s[0] == '(' then 1 else if s[0] == ')' then -1 else 0;
      if open + step < 0 {
        assert s[..1][1..] == "" && Surplus(s[..1]) == step;
        assert Dips(s, open);
      } else {
        DipsStep(s, open, step);
        ClosesExactly(s[1..], open + step);
      }
    }
  }

  /** A predicate whose parentheses do not pair up is taken to hold without `test`. */
  lemma UnpairedIsRefused(s: string)
    requires Surplus(Trim(s)) != 0 || Dips(Trim(s), 0)
    ensures RequiresTest(s) == Answer(false)
  {
    hide Trim, Args, HasCall;
    ClosesExactly(Trim(s), 0);
  }

  lemma DipsStep(s: string, depth: nat, step: int)
    requires s != "" && step == (if s[0] == '(' then 1 else if s[0] == ')' then -1 else 0) && depth + step >= 0
    ensures Dips(s, depth) <==> Dips(s[1..], depth + step)
  {
    if Dips(s, depth) {
      var k :| 0 <= k <= |s| && depth + Surplus(s[..k]) < 0;
      assert s[..k][1..] == s[1..][..k - 1];
    }
    if Dips(s[1..], depth + step) {
      var k :| 0 <= k <= |s[1..]| && depth + step + Surplus(s[1..][..k]) < 0;
      assert s[..k + 1][1..] == s[1..][..k];
    }
  }

  /** Text that no predicate prints as can still pair up: then the depth counter underflows. */
  lemma PairedTextCanUnderflow()
    ensures Closes("all()()", 0) && RequiresTest("all()()") == Underflow
  {
    var s := "all()()";
    assert s[1..] == "ll()()" && s[2..] == "l()()" && s[3..] == "()()" && s[4..] == ")()" && s[5..] == "()" && s[6..] == ")";
    assert Closes(")", 1) && Closes("()", 0) && Closes(")()", 1) && Closes("()()", 0) && Closes("l()()", 0);
    assert Closes("ll()()", 0);
    assert TrimStart(s) == s && TrimEnd(s) == s;
    assert Inner(s, "all") == ")(";
    assert Split(")(", 0, "") == None;
  }

  // ----- the loops

  /** The counting loop over the whole predicate. */
  method Paired(p: string) returns (ok: bool)
    ensures ok == Closes(p, 0)
  {
    var open := 0;
    for i := 0 to |p|
      invariant open >= 0 && Closes(p, 0) == Closes(p[i..], open)
    {
      assert p[i..][1..] == p[i + 1..];
      if p[i] == '(' {
        open := open + 1;
      } else if p[i] == ')' {
        if open == 0 {
          return false;
        }
        open := open - 1;
      }
    }
    ok := open == 0;
  }

  /** The cutting loop: `part` grows until a comma outside parentheses. */
  method CutArgs(inner: string) returns (args: Option<seq<string>>)
    ensures args == Args(inner)
  {
    var parts, depth, part := [], 0, "";
    assert inner[0..] == inner;
    assert Split(inner, 0, "").Some? ==> [] + Split(inner, 0, "").value == Split(inner, 0, "").value;
    for i := 0 to |inner|
      invariant depth >= 0
      invariant var rest := Split(inner[i..], depth, part);
                Split(inner, 0, "") == if rest.None? then None else Some(parts + rest.value)
    {
      var c := inner[i];
      assert inner[i..][1..] == inner[i + 1..];
      if c == '(' {
        depth := depth + 1;
      } else if c == ')' {
        if depth == 0 {
          return None;
        }
        depth := depth - 1;
      } else if c == ',' && depth == 0 {
        ghost var rest := Split(inner[i + 1..], 0, "");
        assert rest.Some? ==> parts + ([part] + rest.value) == (parts + [part]) + rest.value;
        parts, part := parts + [part], "";
        continue;
      }
      part := part + [c];
    }
    parts := parts + [part];
    args := Some(DropBlank(parts));
  }

  /** The check as the code runs it. */
  method CheckRequiresTest(predicateText: string) returns (v: Verdict)
    ensures v == RequiresTest(predicateText)
    decreases |predicateText|
  {
    hide Trim, Closes, Args;
    var p := Trim(predicateText);
    var paired := Paired(p);
    if !paired {
      return Answer(false);
    }
    if p == "test" {
      return Answer(true);
    }
    if HasCall(p, "all") {
      var args := CutArgs(Inner(p, "all"));
      if args.None? {
        return Underflow;
      }
      for i := 0 to |args.value|
        invariant AnyRequires(args.value, |p|) == AnyRequires(args.value[i..], |p|)
      {
        assert args.value[i] in args.value;
        assert args.value[i..][1..] == args.value[i + 1..];
        var first := CheckRequiresTest(args.value[i]);
        if first != Answer(false) {
          return first;
        }
      }
      return Answer(false);
    }
    if HasCall(p, "any") {
      var args := CutArgs(Inner(p, "any"));
      if args.None? {
        return Underflow;
      }
      if args.value == [] {
        return Answer(false);
      }
      for i := 0 to |args.value|
        invariant AllRequire(args.value, |p|) == AllRequire(args.value[i..], |p|)
      {
        assert args.value[i] in args.value;
        assert args.value[i..][1..] == args.value[i + 1..];
        var first := CheckRequiresTest(args.value[i]);
        if first != Answer(true) {
          return first;
        }
      }
      return Answer(true);
    }
    v := Answer(false);
  }
}
