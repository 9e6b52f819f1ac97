/** The package-selection expression language of src/matcher.rs: words such
    as `name^=pallet-` or `version=1.0.0`, combined with `&&`, `||` and
    parentheses. Parsing runs in three stages, kept apart here as in the
    program: `lex` turns the text into items, `traverse` groups the items
    between parentheses into a tree, and `translate` folds each group into a
    matcher. `semver::Version::parse`, which the program calls on the text
    after `version=`, comes in as a parameter. */
module Matchers {
  import opened Wrappers
  import opened Strings
  import Semver

  /** What an expression is matched against: a name and a version. */
  datatype Package = Package(name: string, version: Semver.Version)

  datatype Comparator = Eq(pattern: string) | Neq(pattern: string) | Starts(pattern: string) | Ends(pattern: string)

  datatype Matcher =
    | Version(version: Semver.Version)
    | Name(comparator: Comparator)
    | And(left: Matcher, right: Matcher)
    | Or(left: Matcher, right: Matcher)

  predicate CompMatches(c: Comparator, name: string) {
    match c
    case Eq(v) => name == v
    case Neq(v) => name != v
    case Starts(v) => StartsWith(name, v)
    case Ends(v) => EndsWith(name, v)
  }

  /** `Matcher::matches`: versions are compared for equality, all parts included. */
  predicate Matches(m: Matcher, p: Package) {
    match m
    case Version(v) => p.version == v
    case Name(c) => CompMatches(c, p.name)
    case And(a, b) => Matches(a, p) && Matches(b, p)
    case Or(a, b) => Matches(a, p) || Matches(b, p)
  }

  /** `!=` matches exactly the names `==` does not. */
  lemma {:induction false} NeqNegatesEq(v: string, p: Package)
    ensures Matches(Name(Neq(v)), p) <==> !Matches(Name(Eq(v)), p)
  {
  }

  // ---------------------------------------------------------------- lex

  datatype LexItem = Token(chars: string) | OpenParen | CloseParen | AndOp | OrOp

  /** The characters that end a word: the operators, parentheses and the space. */
  predicate Special(c: char) {
    c == '&' || c == '|' || c == '(' || c == ')' || c == ' '
  }

  predicate NoSpecial(s: string) {
    forall i :: 0 <= i < |s| ==> !Special(s[i])
  }

  /** What `lex` puts into a token: a non-empty run of ordinary characters. */
  predicate Word(s: string) {
    |s| > 0 && NoSpecial(s)
  }

  /** Item sequences `lex` can produce: every token a word, and no two
      tokens next to each other. */
  predicate WellLexed(items: seq<LexItem>) {
    && (forall i :: 0 <= i < |items| && items[i].Token? ==> Word(items[i].chars))
    && (forall i :: 0 <= i < |items| - 1 ==> !(items[i].Token? && items[i + 1].Token?))
  }

  function Flush(token: string): seq<LexItem> {
    if |token| > 0 then [Token(token)] else []
  }

  /** `lex` from the current position with `token` collected so far. */
  function LexFrom(s: string, token: string): seq<LexItem>
    decreases |s|
  {
    if |s| == 0 then Flush(token)
    else if s[0] == '&' then
      Flush(token) + [AndOp] + LexFrom(if |s| > 1 && s[1] == '&' then s[2..] else s[1..], "")
    else if s[0] == '|' then
      Flush(token) + [OrOp] + LexFrom(if |s| > 1 && s[1] == '|' then s[2..] else s[1..], "")
    else if s[0] == '(' then Flush(token) + [OpenParen] + LexFrom(s[1..], "")
    else if s[0] == ')' then Flush(token) + [CloseParen] + LexFrom(s[1..], "")
    else if s[0] == ' ' then LexFrom(s[1..], token)
    else LexFrom(s[1..], token + [s[0]])
  }

  /** `lex`: `&` and `&&` both give one `AndOp`, `|` and `||` one `OrOp`,
      each parenthesis its own item, spaces are dropped (they do not end a
      word), and every other run of characters is one token. It cannot fail. */
  function Lex(s: string): (r: seq<LexItem>)
    ensures WellLexed(r)
  {
    LexFromWellLexed(s, "");
    LexFrom(s, "")
  }

  /** Each token `lex` emits is a word, and it emits a token only before
      an operator, a parenthesis or the end, so never two in a row. */
  lemma {:induction false} LexFromWellLexed(s: string, token: string)
    requires NoSpecial(token)
    ensures WellLexed(LexFrom(s, token))
    decreases |s|
  {
    if |s| > 0 {
      var c := s[0];
      if c == '&' || c == '|' || c == '(' || c == ')' {
        var op := if c == '&' then AndOp else if c == '|' then OrOp else if c == '(' then OpenParen else CloseParen;
        var next := if (c == '&' || c == '|') && |s| > 1 && s[1] == c then s[2..] else s[1..];
        assert LexFrom(s, token) == Flush(token) + [op] + LexFrom(next, "");
        LexFromWellLexed(next, "");
        WellLexedJoin(Flush(token), [op]);
        WellLexedJoin(Flush(token) + [op], LexFrom(next, ""));
      } else if c == ' ' {
        LexFromWellLexed(s[1..], token);
      } else {
        NoSpecialJoin(token, [c]);
        LexFromWellLexed(s[1..], token + [c]);
      }
    }
  }

  function ItemText(l: LexItem): string {
    match l
    case Token(t) => t
    case OpenParen => "("
    case CloseParen => ")"
    case AndOp => "&&"
    case OrOp => "||"
  }

  /** Items written back as text, separated by single spaces. */
  function Render(items: seq<LexItem>): string {
    if |items| == 0 then ""
    else if |items| == 1 then ItemText(items[0])
    else ItemText(items[0]) + " " + Render(items[1..])
  }

  /** Ordinary characters join the pending token. */
  lemma {:induction false} AbsorbWord(t: string, rest: string, acc: string)
    requires NoSpecial(t) && NoSpecial(acc)
    ensures NoSpecial(acc + t)
    ensures LexFrom(t + rest, acc) == LexFrom(rest, acc + t)
    decreases |t|
  {
    if |t| > 0 {
      assert (t + rest)[0] == t[0];
      assert (t + rest)[1..] == t[1..] + rest;
      assert acc + t == (acc + [t[0]]) + t[1..];
      AbsorbWord(t[1..], rest, acc + [t[0]]);
    } else {
      assert t + rest == rest;
      assert acc + t == acc;
    }
  }

  /** A space neither ends nor joins the pending token. */
  lemma {:induction false} LexSpace(rest: string, acc: string)
    requires NoSpecial(acc)
    ensures LexFrom(" " + rest, acc) == LexFrom(rest, acc)
  {
    assert (" " + rest)[1..] == rest;
  }

  /** An operator or parenthesis ends the pending token. */
  lemma {:induction false} LexSymbol(op: LexItem, tail: string, acc: string)
    requires !op.Token? && NoSpecial(acc)
    ensures LexFrom(ItemText(op) + tail, acc) == Flush(acc) + [op] + LexFrom(tail, "")
  {
    var s := ItemText(op) + tail;
    if op.AndOp? || op.OrOp? {
      assert s[0] == ItemText(op)[0] && s[1] == ItemText(op)[1];
      assert s[2..] == tail;
    } else {
      assert s[0] == ItemText(op)[0];
      assert s[1..] == tail;
    }
  }

  lemma {:induction false} WellLexedTail(items: seq<LexItem>)
    requires WellLexed(items) && |items| > 0
    ensures WellLexed(items[1..])
    ensures |items| > 1 && items[0].Token? ==> !items[1..][0].Token?
  {
    assert forall i :: 0 <= i < |items| - 1 ==> items[1..][i] == items[i + 1];
  }

  lemma {:induction false} LexRenderFrom(items: seq<LexItem>, acc: string)
    requires WellLexed(items) && NoSpecial(acc)
    requires |acc| > 0 && |items| > 0 ==> !items[0].Token?
    ensures LexFrom(Render(items), acc) == Flush(acc) + items
    decreases |items|
  {
    if |items| > 0 {
      var head, rest := items[0], items[1..];
      WellLexedTail(items);
      var tail := if |items| == 1 then "" else " " + Render(rest);
      var next := if head.Token? then head.chars else "";
      if |items| > 1 {
        LexRenderFrom(rest, next);
        LexSpace(Render(rest), next);
      }
      RenderHead(items);
      LexHead(head, tail, acc, rest);
      assert [head] + rest == items;
    }
  }

  lemma {:induction false} RenderHead(items: seq<LexItem>)
    requires |items| > 0
    ensures Render(items) == ItemText(items[0]) + (if |items| == 1 then "" else " " + Render(items[1..]))
  {
  }

  /** The first item of a rendering, followed by the rendering of the rest. */
  lemma {:induction false} LexHead(head: LexItem, tail: string, acc: string, rest: seq<LexItem>)
    requires NoSpecial(acc) && (head.Token? ==> Word(head.chars) && acc == "")
    requires LexFrom(tail, if head.Token? then head.chars else "") == Flush(if head.Token? then head.chars else "") + rest
    ensures LexFrom(ItemText(head) + tail, acc) == Flush(acc) + ([head] + rest)
  {
    if head.Token? {
      AbsorbWord(head.chars, tail, acc);
      assert acc + head.chars == head.chars;
    } else {
      LexSymbol(head, tail, acc);
    }
  }

  /** Lexing is a left inverse of rendering: whatever `lex` could have
      produced, written back with spaces, lexes to the same items. */
  lemma {:induction false} LexRender(items: seq<LexItem>)
    requires WellLexed(items)
    ensures Lex(Render(items)) == items
  {
    LexRenderFrom(items, "");
  }

  // ----------------------------------------------------------- traverse

  datatype Node = Entry(item: LexItem) | Children(nodes: seq<Node>)

  /** No parenthesis is left as an entry: `traverse` turns each into a group. */
  predicate Grouped(n: Node) {
    match n
    case Entry(l) => !l.OpenParen? && !l.CloseParen?
    case Children(ch) => forall i :: 0 <= i < |ch| ==> Grouped(ch[i])
  }

  predicate ParenFree(items: seq<LexItem>) {
    forall i :: 0 <= i < |items| ==> !items[i].OpenParen? && !items[i].CloseParen?
  }

  function Entries(items: seq<LexItem>): (r: seq<Node>)
    ensures |r| == |items|
    ensures forall i :: 0 <= i < |items| ==> r[i] == Entry(items[i])
  {
    if |items| == 0 then [] else [Entry(items[0])] + Entries(items[1..])
  }

  /** `traverse`: collects the nodes of one group onto `acc` until a closing
      parenthesis or the end of the items, descending into a new group at
      each opening parenthesis. Returns the group and the items after it. */
  function Traverse(items: seq<LexItem>, acc: seq<Node>): (r: (Node, seq<LexItem>))
    ensures |r.1| <= |items| && r.0.Children?
    decreases |items|
  {
    if |items| == 0 then (Children(acc), [])
    else if items[0].CloseParen? then (Children(acc), items[1..])
    else if items[0].OpenParen? then
      var (child, rest) := Traverse(items[1..], []);
      Traverse(rest, acc + [child])
    else Traverse(items[1..], acc + [Entry(items[0])])
  }

  /** The nodes collected before are kept, in front. */
  lemma {:induction false} TraverseKeepsPrefix(items: seq<LexItem>, acc: seq<Node>)
    ensures var g := Traverse(items, acc).0; |acc| <= |g.nodes| && g.nodes[..|acc|] == acc
    decreases |items|
  {
    if |items| > 0 && !items[0].CloseParen? {
      var acc' := if items[0].OpenParen? then acc + [Traverse(items[1..], []).0] else acc + [Entry(items[0])];
      var rest := if items[0].OpenParen? then Traverse(items[1..], []).1 else items[1..];
      assert Traverse(items, acc) == Traverse(rest, acc');
      TraverseKeepsPrefix(rest, acc');
      var g := Traverse(items, acc).0;
      assert acc'[..|acc|] == acc;
      assert g.nodes[..|acc|] == g.nodes[..|acc'|][..|acc|];
    }
  }

  /** The tree `traverse` builds contains no parenthesis entries. */
  lemma {:induction false} TraverseGrouped(items: seq<LexItem>, acc: seq<Node>)
    requires Grouped(Children(acc))
    ensures Grouped(Traverse(items, acc).0)
    decreases |items|
  {
    if |items| > 0 && !items[0].CloseParen? {
      if items[0].OpenParen? {
        var (child, rest) := Traverse(items[1..], []);
        TraverseGrouped(items[1..], []);
        GroupedAppend(acc, child);
        TraverseGrouped(rest, acc + [child]);
      } else {
        GroupedAppend(acc, Entry(items[0]));
        TraverseGrouped(items[1..], acc + [Entry(items[0])]);
      }
    }
  }

  lemma {:induction false} GroupedAppend(acc: seq<Node>, n: Node)
    ensures Grouped(Children(acc)) && Grouped(n) ==> Grouped(Children(acc + [n]))
  {
    if Grouped(Children(acc)) && Grouped(n) {
      var acc' := acc + [n];
      forall i | 0 <= i < |acc'| ensures Grouped(acc'[i]) {
        if i < |acc| { assert acc'[i] == acc[i]; }
      }
    }
  }

  /** A word or operator is appended to the current group. */
  lemma {:induction false} TraverseEntry(items: seq<LexItem>, acc: seq<Node>)
    requires |items| > 0 && !items[0].OpenParen? && !items[0].CloseParen?
    ensures Traverse(items, acc) == Traverse(items[1..], acc + [Entry(items[0])])
  {
  }

  /** A closing parenthesis with no opening one ends the expression: the
      items after it are ignored. */
  lemma {:induction false} TraverseStopsAtClose(items: seq<LexItem>, more: seq<LexItem>, acc: seq<Node>)
    requires ParenFree(items)
    ensures Traverse(items + [CloseParen] + more, acc) == (Children(acc + Entries(items)), more)
    decreases |items|
  {
    if |items| == 0 {
      assert items + [CloseParen] + more == [CloseParen] + more;
      assert acc + Entries(items) == acc;
    } else {
      assert (items + [CloseParen] + more)[1..] == items[1..] + [CloseParen] + more;
      TraverseEntry(items + [CloseParen] + more, acc);
      assert ParenFree(items[1..]) by {
        assert forall i :: 0 <= i < |items[1..]| ==> items[1..][i] == items[i + 1];
      }
      TraverseStopsAtClose(items[1..], more, acc + [Entry(items[0])]);
      assert acc + [Entry(items[0])] + Entries(items[1..]) == acc + Entries(items);
    }
  }

  /** Items without parentheses form one flat group. */
  lemma {:induction false} TraverseFlat(items: seq<LexItem>, acc: seq<Node>)
    requires ParenFree(items)
    ensures Traverse(items, acc) == (Children(acc + Entries(items)), [])
    decreases |items|
  {
    if |items| == 0 {
      assert acc + Entries(items) == acc;
    } else {
      assert ParenFree(items[1..]) by {
        assert forall i :: 0 <= i < |items[1..]| ==> items[1..][i] == items[i + 1];
      }
      TraverseEntry(items, acc);
      TraverseFlat(items[1..], acc + [Entry(items[0])]);
      assert acc + [Entry(items[0])] + Entries(items[1..]) == acc + Entries(items);
    }
  }

  // ---------------------------------------------------------- translate

  type VersionParser = string -> Result<Semver.Version>

  /** The text after "name" starts with a comparator's operator. */
  predicate NameOperator(after: string) {
    StartsWith(after, "^=") || StartsWith(after, "$=") || StartsWith(after, "!=") || StartsWith(after, "=")
  }

  /** `parse_token`: a `version=` word is a version (via `parse`), a `name`
      word a comparator chosen by the two characters after `name`: `^=`
      starts, `$=` ends, `!=` differs, `==` or `=` equals. */
  function ParseToken(s: string, parse: VersionParser): (r: Result<Matcher>)
    ensures StartsWith(s, "version=") ==> (r.Ok? <==> parse(s[8..]).Ok?)
    ensures StartsWith(s, "version=") && r.Err? ==> r.error == "Could not parse version: " + parse(s[8..]).error
    ensures !StartsWith(s, "version=") && !StartsWith(s, "name") ==> r == Err("Unknown Token " + s)
    ensures !StartsWith(s, "version=") && StartsWith(s, "name") && !NameOperator(s[4..]) ==>
      r == Err("Could not parse name match " + s)
    ensures !StartsWith(s, "version=") && StartsWith(s, "name") && NameOperator(s[4..]) ==> r.Ok? && r.value.Name?
    ensures r.Ok? ==> (StartsWith(s, "version=") <==> r.value.Version?) && (r.value.Version? || r.value.Name?)
    ensures r.Ok? && r.value.Name? ==> StartsWith(s, "name") && EndsWith(s, r.value.comparator.pattern)
  {
    if StartsWith(s, "version=") then
      match parse(s[8..])
      case Ok(v) => Ok(Version(v))
      case Err(e) => Err("Could not parse version: " + e)
    else if StartsWith(s, "name") then
      var after := s[4..];
      if StartsWith(after, "^=") then Ok(Name(Starts(s[6..])))
      else if StartsWith(after, "$=") then Ok(Name(Ends(s[6..])))
      else if StartsWith(after, "!=") then Ok(Name(Neq(s[6..])))
      else if StartsWith(after, "==") then Ok(Name(Eq(s[6..])))
      else if StartsWith(after, "=") then Ok(Name(Eq(s[5..])))
      else Err("Could not parse name match " + s)
    else Err("Unknown Token " + s)
  }

  /** The canonical word for a comparator. */
  function ComparatorText(c: Comparator): string {
    match c
    case Eq(v) => "name==" + v
    case Neq(v) => "name!=" + v
    case Starts(v) => "name^=" + v
    case Ends(v) => "name$=" + v
  }

  /** Every comparator's word parses back to it, whatever its pattern. */
  lemma {:induction false} ParseComparatorText(c: Comparator, parse: VersionParser)
    ensures ParseToken(ComparatorText(c), parse) == Ok(Name(c))
  {
    var s := ComparatorText(c);
    var after := s[4..];
    assert s[..4] == "name" && s[6..] == c.pattern;
    assert !StartsWith(s, "version=") by { assert s[0] == 'n'; }
    assert after[..2] == s[4..6];
    match c
    case Eq(v) => assert after[0] == '=';
    case Neq(v) => assert after[0] == '!';
    case Starts(v) => assert after[0] == '^';
    case Ends(v) => assert after[0] == '$';
  }

  /** `name=` compares for equality too, unless the pattern itself starts
      with `=`: then the word reads as `name==` and one `=` is lost. */
  lemma {:induction false} SingleEqualsIsEq(v: string, parse: VersionParser)
    ensures |v| == 0 || v[0] != '=' ==> ParseToken("name=" + v, parse) == Ok(Name(Eq(v)))
    ensures |v| > 0 && v[0] == '=' ==> ParseToken("name=" + v, parse) == Ok(Name(Eq(v[1..])))
  {
    var s := "name=" + v;
    var after := s[4..];
    assert s[..4] == "name" && s[5..] == v && after[..1] == "=";
    assert !StartsWith(s, "version=") by { assert s[0] == 'n'; }
    assert after[0] == '=';
    assert !StartsWith(after, "^=") && !StartsWith(after, "$=") && !StartsWith(after, "!=");
    if |v| > 0 {
      assert after[..2] == "=" + [v[0]];
      assert s[6..] == v[1..];
    } else {
      assert !StartsWith(after, "==");
    }
  }

  const NoItemBeforeAnd := "no item before and"
  const MissingAfterAnd := "missing item after end"
  const NoItemBeforeOr := "no item before or"
  const MissingAfterOr := "missing item after or"
  const NotSupported := "Item not supported"
  /** The panic of `unreachable!()`, for a parenthesis entry. */
  const Unreachable := "internal error: entered unreachable code"
  /** The panic of `matchers.pop().expect(..)` on an empty group. */
  const EmptyGroup := "Exists. We just checked"

  /** Matchers folded left to right with `And`. */
  function FoldAnd(ms: seq<Matcher>): (m: Matcher)
    requires |ms| > 0
    ensures forall p :: Matches(m, p) <==> forall i :: 0 <= i < |ms| ==> Matches(ms[i], p)
  {
    if |ms| == 1 then ms[0] else And(FoldAnd(ms[..|ms| - 1]), ms[|ms| - 1])
  }

  /** `translate`: a token entry is parsed, a group is translated member by
      member. */
  function Translate(n: Node, parse: VersionParser): (r: Result<Matcher>)
    decreases n
  {
    match n
    case Entry(l) => if l.Token? then ParseToken(l.chars, parse) else Err(NotSupported)
    case Children(ch) =>
      var ms :- TranslateGroup(ch, [], parse);
      if |ms| > 1 then Ok(FoldAnd(ms))
      else if |ms| == 1 then Ok(ms[0])
      else Err(EmptyGroup)
  }

  /** The loop over a group's nodes with the matchers built so far: an
      operator combines the last matcher with the translation of the node
      right after it, with no precedence between `&&` and `||`. */
  function TranslateGroup(ch: seq<Node>, ms: seq<Matcher>, parse: VersionParser): (r: Result<seq<Matcher>>)
    decreases ch
  {
    if |ch| == 0 then Ok(ms)
    else match ch[0]
      case Entry(l) =>
        (match l
         case Token(t) =>
           var m :- ParseToken(t, parse);
           TranslateGroup(ch[1..], ms + [m], parse)
         case AndOp | OrOp =>
           if |ms| == 0 then Err(if l.AndOp? then NoItemBeforeAnd else NoItemBeforeOr)
           else if |ch| == 1 then Err(if l.AndOp? then MissingAfterAnd else MissingAfterOr)
           else
             var next :- Translate(ch[1], parse);
             TranslateGroup(ch[2..], ms[..|ms| - 1] + [Combine(l, ms[|ms| - 1], next)], parse)
         case _ => Err(Unreachable))
      case Children(_) =>
        var m :- Translate(ch[0], parse);
        TranslateGroup(ch[1..], ms + [m], parse)
  }

  /** `traverse` followed by `translate`. */
  function ParseItems(items: seq<LexItem>, parse: VersionParser): Result<Matcher> {
    Translate(Traverse(items, []).0, parse)
  }

  /** `parse`: text without a single token is an error, where the program
      panics on the empty fold. */
  function Parse(s: string, parse: VersionParser): (r: Result<Matcher>)
    ensures Lex(s) == [] ==> r == Err(EmptyGroup)
  {
    ParseItems(Lex(s), parse)
  }

  /** The tree `traverse` builds contains no parenthesis entries, so the
      `unreachable!()` arm of `translate` is never taken from `parse`. */
  lemma {:induction false} ParsedTreeGrouped(s: string)
    ensures Grouped(Traverse(Lex(s), []).0)
  {
    TraverseGrouped(Lex(s), []);
  }

  // -------------------------------------------------------- properties

  /** An expression that starts with an operator has nothing to combine. */
  lemma {:induction false} LeadingOperator(op: LexItem, rest: seq<LexItem>, parse: VersionParser)
    requires op.AndOp? || op.OrOp?
    ensures ParseItems([op] + rest, parse) == Err(if op.AndOp? then NoItemBeforeAnd else NoItemBeforeOr)
  {
    TraverseEntry([op] + rest, []);
    assert ([op] + rest)[1..] == rest;
    TraverseKeepsPrefix(rest, [] + [Entry(op)]);
    var r := Traverse([op] + rest, []);
    assert r.0.nodes[..1] == [Entry(op)];
    assert r.0.nodes[0] == Entry(op);
    assert TranslateGroup(r.0.nodes, [], parse).Err?;
  }

  /** An operator at the end of a group has nothing on its right. */
  lemma {:induction false} TrailingOperator(t: string, op: LexItem, parse: VersionParser)
    requires op.AndOp? || op.OrOp?
    requires ParseToken(t, parse).Ok?
    ensures ParseItems([Token(t), op], parse) == Err(if op.AndOp? then MissingAfterAnd else MissingAfterOr)
  {
    var items := [Token(t), op];
    var ch := [Entry(Token(t)), Entry(op)];
    TraverseFlat(items, []);
    assert [] + Entries(items) == ch;
    assert ch[1..] == [Entry(op)];
    var m := ParseToken(t, parse).value;
    assert TranslateGroup(ch, [], parse) == TranslateGroup([Entry(op)], [m], parse);
  }

  /** Two operators in a row: the second is translated as the right operand,
      which is not supported. */
  lemma {:induction false} DoubledOperator(a: string, op: LexItem, b: string, parse: VersionParser)
    requires op.AndOp? || op.OrOp?
    requires ParseToken(a, parse).Ok?
    ensures ParseItems([Token(a), op, OrOp, Token(b)], parse) == Err(NotSupported)
  {
    var items := [Token(a), op, OrOp, Token(b)];
    var ch := [Entry(Token(a)), Entry(op), Entry(OrOp), Entry(Token(b))];
    TraverseFlat(items, []);
    assert [] + Entries(items) == ch;
    var m := ParseToken(a, parse).value;
    assert ch[1..] == [Entry(op), Entry(OrOp), Entry(Token(b))];
    OperatorThenOperator(m, op, b, parse);
    assert TranslateGroup(ch, [], parse) == TranslateGroup(ch[1..], [] + [m], parse);
    assert [] + [m] == [m];
    assert Translate(Children(ch), parse) == Err(NotSupported);
  }

  /** After a left operand, an operator followed by `||` fails on the `||`. */
  lemma {:induction false} OperatorThenOperator(m: Matcher, op: LexItem, b: string, parse: VersionParser)
    requires op.AndOp? || op.OrOp?
    ensures TranslateGroup([Entry(op), Entry(OrOp), Entry(Token(b))], [m], parse) == Err(NotSupported)
  {
    assert Translate(Entry(OrOp), parse) == Err(NotSupported);
  }

  /** The empty expression, and `()`, leave an empty group. */
  lemma {:induction false} EmptyExpression(parse: VersionParser)
    ensures Parse("", parse) == Err(EmptyGroup)
    ensures ParseItems([OpenParen, CloseParen], parse) == Err(EmptyGroup)
  {
    var items := [OpenParen, CloseParen];
    assert items[1..] == [CloseParen];
    assert Traverse(items, []).0 == Children([Children([])]);
  }

  /** `op` applied to two matchers, as `translate` does for `&&` and `||`. */
  function Combine(op: LexItem, a: Matcher, b: Matcher): Matcher
    requires op.AndOp? || op.OrOp?
  {
    if op.AndOp? then And(a, b) else Or(a, b)
  }

  /** A single word is parsed as a token on its own. */
  lemma {:induction false} SingleWord(w: string, parse: VersionParser)
    requires Word(w)
    ensures Parse(w, parse) == ParseToken(w, parse)
  {
    assert Render([Token(w)]) == w;
    LexRender([Token(w)]);
    TraverseFlat([Token(w)], []);
    var ch := [Entry(Token(w))];
    assert [] + Entries([Token(w)]) == ch;
    assert Lex(w) == [Token(w)];
    assert Traverse([Token(w)], []).0 == Children(ch);
    if ParseToken(w, parse).Ok? {
      StepToken(ch, [], parse);
      assert ch[1..] == [] && [] + [ParseToken(w, parse).value] == [ParseToken(w, parse).value];
    } else {
      assert TranslateGroup(ch, [], parse) == Err(ParseToken(w, parse).error);
    }
  }

  /** One step of the loop in `translate` over a token. */
  lemma {:induction false} StepToken(ch: seq<Node>, ms: seq<Matcher>, parse: VersionParser)
    requires |ch| > 0 && ch[0].Entry? && ch[0].item.Token? && ParseToken(ch[0].item.chars, parse).Ok?
    ensures TranslateGroup(ch, ms, parse) == TranslateGroup(ch[1..], ms + [ParseToken(ch[0].item.chars, parse).value], parse)
  {
  }

  /** One step of the loop in `translate` over a nested group. */
  lemma {:induction false} StepGroup(ch: seq<Node>, ms: seq<Matcher>, parse: VersionParser)
    requires |ch| > 0 && ch[0].Children? && Translate(ch[0], parse).Ok?
    ensures TranslateGroup(ch, ms, parse) == TranslateGroup(ch[1..], ms + [Translate(ch[0], parse).value], parse)
  {
  }

  /** One step of the loop in `translate` over an operator and its right operand. */
  lemma {:induction false} StepOperator(ch: seq<Node>, ms: seq<Matcher>, parse: VersionParser)
    requires |ch| > 1 && ch[0].Entry? && (ch[0].item.AndOp? || ch[0].item.OrOp?)
    requires |ms| > 0 && Translate(ch[1], parse).Ok?
    ensures TranslateGroup(ch, ms, parse)
      == TranslateGroup(ch[2..], ms[..|ms| - 1] + [Combine(ch[0].item, ms[|ms| - 1], Translate(ch[1], parse).value)], parse)
  {
  }

  /** A group of three nodes `x op y` translates to `op` applied to the
      translations of `x` and `y`. */
  lemma {:induction false} TranslateTriple(x: Node, op: LexItem, y: Node, parse: VersionParser)
    requires x.Children? || x.item.Token?
    requires op.AndOp? || op.OrOp?
    requires Translate(x, parse).Ok? && Translate(y, parse).Ok?
    ensures Translate(Children([x, Entry(op), y]), parse)
      == Ok(Combine(op, Translate(x, parse).value, Translate(y, parse).value))
  {
    var ch := [x, Entry(op), y];
    var mx, my := Translate(x, parse).value, Translate(y, parse).value;
    if x.Children? {
      StepGroup(ch, [], parse);
    } else {
      StepToken(ch, [], parse);
    }
    assert [] + [mx] == [mx];
    assert ch[1..] == [Entry(op), y] && ch[1..][2..] == [];
    StepOperator(ch[1..], [mx], parse);
    assert [mx][..0] + [Combine(op, mx, my)] == [Combine(op, mx, my)];
    assert TranslateGroup(ch, [], parse) == Ok([Combine(op, mx, my)]);
  }

  /** A run of items without parentheses parses as one flat group. */
  lemma {:induction false} ParseFlat(items: seq<LexItem>, parse: VersionParser)
    requires ParenFree(items)
    ensures ParseItems(items, parse) == Translate(Children(Entries(items)), parse)
  {
    TraverseFlat(items, []);
    assert [] + Entries(items) == Entries(items);
  }

  /** An unmatched `)` ends the expression: whatever follows it is dropped
      without an error. */
  lemma {:induction false} IgnoredAfterClose(items: seq<LexItem>, more: seq<LexItem>, parse: VersionParser)
    requires ParenFree(items)
    ensures ParseItems(items + [CloseParen] + more, parse) == ParseItems(items, parse)
  {
    TraverseStopsAtClose(items, more, []);
    TraverseFlat(items, []);
  }

  /** Operators bind left to right with no precedence: the second operator
      takes the result of the first as its left operand, whichever they are. */
  lemma {:induction false} NoPrecedence(a: string, op1: LexItem, b: string, op2: LexItem, c: string, parse: VersionParser)
    requires (op1.AndOp? || op1.OrOp?) && (op2.AndOp? || op2.OrOp?)
    requires ParseToken(a, parse).Ok? && ParseToken(b, parse).Ok? && ParseToken(c, parse).Ok?
    ensures ParseItems([Token(a), op1, Token(b), op2, Token(c)], parse)
      == Ok(Combine(op2, Combine(op1, ParseToken(a, parse).value, ParseToken(b, parse).value), ParseToken(c, parse).value))
  {
    var items := [Token(a), op1, Token(b), op2, Token(c)];
    var ch := [Entry(Token(a)), Entry(op1), Entry(Token(b)), Entry(op2), Entry(Token(c))];
    ParseFlat(items, parse);
    assert Entries(items) == ch;
    var ma, mb, mc := ParseToken(a, parse).value, ParseToken(b, parse).value, ParseToken(c, parse).value;
    var ab := Combine(op1, ma, mb);
    NoPrecedenceSteps(ch, ma, ab, parse);
    StepOperator(ch[3..], [ab], parse);
    assert ch[3..][2..] == [];
  }

  /** The first two steps of `NoPrecedence`: `a op1 b` is folded into one matcher. */
  lemma {:induction false} NoPrecedenceSteps(ch: seq<Node>, ma: Matcher, ab: Matcher, parse: VersionParser)
    requires |ch| >= 3 && ch[0].Entry? && ch[0].item.Token? && ParseToken(ch[0].item.chars, parse) == Ok(ma)
    requires ch[1].Entry? && (ch[1].item.AndOp? || ch[1].item.OrOp?) && Translate(ch[2], parse).Ok?
    requires ab == Combine(ch[1].item, ma, Translate(ch[2], parse).value)
    ensures TranslateGroup(ch, [], parse) == TranslateGroup(ch[3..], [ab], parse)
  {
    FirstWord(ch, ma, parse);
    FirstOperator(ch[1..], ma, ab, parse);
    assert ch[1..][2..] == ch[3..];
  }

  /** A group that starts with a word continues with that word's matcher alone. */
  lemma {:induction false} FirstWord(ch: seq<Node>, ma: Matcher, parse: VersionParser)
    requires |ch| > 0 && ch[0].Entry? && ch[0].item.Token? && ParseToken(ch[0].item.chars, parse) == Ok(ma)
    ensures TranslateGroup(ch, [], parse) == TranslateGroup(ch[1..], [ma], parse)
  {
    StepToken(ch, [], parse);
    assert [] + [ma] == [ma];
  }

  /** An operator after a single matcher replaces it by the combination. */
  lemma {:induction false} FirstOperator(t: seq<Node>, ma: Matcher, ab: Matcher, parse: VersionParser)
    requires |t| > 1 && t[0].Entry? && (t[0].item.AndOp? || t[0].item.OrOp?) && Translate(t[1], parse).Ok?
    requires ab == Combine(t[0].item, ma, Translate(t[1], parse).value)
    ensures TranslateGroup(t, [ma], parse) == TranslateGroup(t[2..], [ab], parse)
  {
    StepOperator(t, [ma], parse);
    assert [ma][..0] + [ab] == [ab];
  }

  /** A group written right after a word, with no operator between, is
      joined to it with `And`. */
  lemma {:induction false} Juxtaposed(a: string, b: string, parse: VersionParser)
    requires ParseToken(a, parse).Ok? && ParseToken(b, parse).Ok?
    ensures ParseItems([Token(a), OpenParen, Token(b), CloseParen], parse)
      == Ok(And(ParseToken(a, parse).value, ParseToken(b, parse).value))
  {
    var items := [Token(a), OpenParen, Token(b), CloseParen];
    TraverseEntry(items, []);
    assert [] + [Entry(Token(a))] == [Entry(Token(a))];
    var inner := [Token(b), CloseParen];
    assert items[1..] == [OpenParen] + inner;
    TraverseOpen(items[1..], [Entry(Token(a))]);
    assert items[1..][1..] == inner;
    assert inner == [Token(b)] + [CloseParen] + [];
    TraverseStopsAtClose([Token(b)], [], []);
    assert [] + Entries([Token(b)]) == [Entry(Token(b))];
    var g := Children([Entry(Token(b))]);
    assert Traverse(inner, []) == (g, []);
    assert [Entry(Token(a))] + [g] == [Entry(Token(a)), g];
    assert Traverse(items, []) == Traverse([], [Entry(Token(a)), g]);
    var ma, mb := ParseToken(a, parse).value, ParseToken(b, parse).value;
    StepToken([Entry(Token(b))], [], parse);
    assert [Entry(Token(b))][1..] == [] && [] + [mb] == [mb];
    assert Translate(g, parse) == Ok(mb);
    var ch := [Entry(Token(a)), g];
    StepToken(ch, [], parse);
    assert ch[1..] == [g] && ch[1..][1..] == [];
    StepGroup(ch[1..], [ma], parse);
    assert [] + [ma] == [ma] && [ma] + [mb] == [ma, mb];
    assert TranslateGroup(ch, [], parse) == Ok([ma, mb]);
    assert FoldAnd([ma, mb]) == And(ma, mb) by {
      assert [ma, mb][..1] == [ma];
    }
  }

  // ------------------------------------------------- printing and parsing

  function Group(items: seq<LexItem>): seq<LexItem> {
    [OpenParen] + items + [CloseParen]
  }

  function VersionText(v: Semver.Version): string {
    "version=" + Semver.Render(v)
  }

  /** A matcher as items: each operand of an operator in parentheses. */
  function ShowItems(m: Matcher): seq<LexItem> {
    match m
    case Version(v) => [Token(VersionText(v))]
    case Name(c) => [Token(ComparatorText(c))]
    case And(a, b) => Group(ShowItems(a)) + [AndOp] + Group(ShowItems(b))
    case Or(a, b) => Group(ShowItems(a)) + [OrOp] + Group(ShowItems(b))
  }

  /** A matcher written as an expression. */
  function Show(m: Matcher): string {
    Render(ShowItems(m))
  }

  /** Matchers whose words survive lexing: no pattern holds an operator,
      parenthesis or space, and the version parser reads each rendered
      version back. */
  predicate Printable(m: Matcher, parse: VersionParser) {
    match m
    case Version(v) => NoSpecial(Semver.Render(v)) && parse(Semver.Render(v)) == Ok(v)
    case Name(c) => NoSpecial(c.pattern)
    case And(a, b) => Printable(a, parse) && Printable(b, parse)
    case Or(a, b) => Printable(a, parse) && Printable(b, parse)
  }

  /** The group `traverse` builds for `ShowItems(m)`. */
  function TopNodes(m: Matcher): seq<Node> {
    match m
    case Version(v) => [Entry(Token(VersionText(v)))]
    case Name(c) => [Entry(Token(ComparatorText(c)))]
    case And(a, b) => [Children(TopNodes(a)), Entry(AndOp), Children(TopNodes(b))]
    case Or(a, b) => [Children(TopNodes(a)), Entry(OrOp), Children(TopNodes(b))]
  }

  lemma {:induction false} NoSpecialJoin(x: string, y: string)
    requires NoSpecial(x) && NoSpecial(y)
    ensures NoSpecial(x + y)
  {
    assert forall i :: |x| <= i < |x + y| ==> (x + y)[i] == y[i - |x|];
  }

  lemma {:induction false} WellLexedJoin(x: seq<LexItem>, y: seq<LexItem>)
    requires WellLexed(x) && WellLexed(y)
    requires |x| > 0 && |y| > 0 ==> !(x[|x| - 1].Token? && y[0].Token?)
    ensures WellLexed(x + y)
  {
    var z := x + y;
    forall i | 0 <= i < |z| - 1 ensures !(z[i].Token? && z[i + 1].Token?) {
      if i + 1 < |x| {
      } else if i + 1 == |x| {
      } else {
        assert z[i] == y[i - |x|] && z[i + 1] == y[i + 1 - |x|];
      }
    }
    assert forall i :: |x| <= i < |z| ==> z[i] == y[i - |x|];
  }

  lemma {:induction false} ShowItemsWellLexed(m: Matcher, parse: VersionParser)
    requires Printable(m, parse)
    ensures WellLexed(ShowItems(m)) && |ShowItems(m)| > 0
    decreases m
  {
    match m
    case Version(v) =>
      NoSpecialJoin("version=", Semver.Render(v));
    case Name(c) =>
      NoSpecialJoin(ComparatorText(c)[..6], c.pattern);
      assert ComparatorText(c) == ComparatorText(c)[..6] + c.pattern;
    case And(a, b) =>
      ShowItemsWellLexed(a, parse);
      ShowItemsWellLexed(b, parse);
      JoinShown(ShowItems(a), AndOp, ShowItems(b));
    case Or(a, b) =>
      ShowItemsWellLexed(a, parse);
      ShowItemsWellLexed(b, parse);
      JoinShown(ShowItems(a), OrOp, ShowItems(b));
  }

  lemma {:induction false} JoinShown(x: seq<LexItem>, op: LexItem, y: seq<LexItem>)
    requires WellLexed(x) && WellLexed(y) && !op.Token?
    ensures WellLexed(Group(x) + [op] + Group(y))
  {
    WellLexedJoin([OpenParen], x);
    WellLexedJoin([OpenParen] + x, [CloseParen]);
    WellLexedJoin(Group(x), [op]);
    WellLexedJoin([OpenParen], y);
    WellLexedJoin([OpenParen] + y, [CloseParen]);
    WellLexedJoin(Group(x) + [op], Group(y));
  }

  lemma {:induction false} TraverseOpen(items: seq<LexItem>, acc: seq<Node>)
    requires |items| > 0 && items[0].OpenParen?
    ensures var inner := Traverse(items[1..], []);
      Traverse(items, acc) == Traverse(inner.1, acc + [inner.0])
  {
  }

  /** `traverse` reads the items of a shown matcher as its group, and stops
      right after them. */
  lemma {:induction false} TraverseShow(m: Matcher, more: seq<LexItem>, acc: seq<Node>)
    ensures Traverse(ShowItems(m) + more, acc) == Traverse(more, acc + TopNodes(m))
    decreases m, 1
  {
    match m
    case Version(_) =>
      TraverseEntry(ShowItems(m) + more, acc);
      assert (ShowItems(m) + more)[1..] == more;
    case Name(_) =>
      TraverseEntry(ShowItems(m) + more, acc);
      assert (ShowItems(m) + more)[1..] == more;
    case And(a, b) => TraverseShowPair(a, AndOp, b, more, acc);
    case Or(a, b) => TraverseShowPair(a, OrOp, b, more, acc);
  }

  lemma {:induction false} TraverseShowPair(a: Matcher, op: LexItem, b: Matcher, more: seq<LexItem>, acc: seq<Node>)
    requires op.AndOp? || op.OrOp?
    ensures Traverse(Group(ShowItems(a)) + [op] + Group(ShowItems(b)) + more, acc)
      == Traverse(more, acc + [Children(TopNodes(a)), Entry(op), Children(TopNodes(b))])
    decreases Combine(op, a, b), 0
  {
    var sa, sb := ShowItems(a), ShowItems(b);
    var acc2 := acc + [Children(TopNodes(a))] + [Entry(op)];
    TraverseShowGroup(a, [op] + (Group(sb) + more), acc);
    TraverseShowGroup(b, more, acc2);
    TraversePair(sa, TopNodes(a), op, sb, TopNodes(b), more, acc);
  }

  /** Two groups joined by an operator, each of which `traverse` turns into
      one nested group, become three nodes. */
  lemma {:induction false} TraversePair(xa: seq<LexItem>, ta: seq<Node>, op: LexItem, xb: seq<LexItem>, tb: seq<Node>,
                                        more: seq<LexItem>, acc: seq<Node>)
    requires op.AndOp? || op.OrOp?
    requires Traverse(Group(xa) + ([op] + (Group(xb) + more)), acc)
      == Traverse([op] + (Group(xb) + more), acc + [Children(ta)])
    requires Traverse(Group(xb) + more, acc + [Children(ta)] + [Entry(op)])
      == Traverse(more, acc + [Children(ta)] + [Entry(op)] + [Children(tb)])
    ensures Traverse(Group(xa) + [op] + Group(xb) + more, acc)
      == Traverse(more, acc + [Children(ta), Entry(op), Children(tb)])
  {
    var rest1 := [op] + (Group(xb) + more);
    var acc1 := acc + [Children(ta)];
    assert Group(xa) + [op] + Group(xb) + more == Group(xa) + rest1;
    TraverseEntry(rest1, acc1);
    assert rest1[1..] == Group(xb) + more;
    assert acc1 + [Entry(op)] + [Children(tb)] == acc + [Children(ta), Entry(op), Children(tb)];
  }

  /** A shown matcher in parentheses becomes one nested group. */
  lemma {:induction false} TraverseShowGroup(m: Matcher, rest: seq<LexItem>, acc: seq<Node>)
    ensures Traverse(Group(ShowItems(m)) + rest, acc) == Traverse(rest, acc + [Children(TopNodes(m))])
    decreases m, 2
  {
    TraverseShow(m, [CloseParen] + rest, []);
    TraverseGroup(ShowItems(m), TopNodes(m), rest, acc);
  }

  /** A parenthesised run of items whose contents `traverse` reads as `tops`
      becomes one nested group. */
  lemma {:induction false} TraverseGroup(inner: seq<LexItem>, tops: seq<Node>, rest: seq<LexItem>, acc: seq<Node>)
    requires Traverse(inner + ([CloseParen] + rest), []) == Traverse([CloseParen] + rest, [] + tops)
    ensures Traverse(Group(inner) + rest, acc) == Traverse(rest, acc + [Children(tops)])
  {
    var items := Group(inner) + rest;
    assert items == [OpenParen] + (inner + ([CloseParen] + rest));
    TraverseOpen(items, acc);
    assert items[1..] == inner + ([CloseParen] + rest);
    assert [] + tops == tops;
    assert ([CloseParen] + rest)[1..] == rest;
  }

  /** `translate` turns the group of a shown matcher back into it. */
  lemma {:induction false} TranslateShow(m: Matcher, parse: VersionParser)
    requires Printable(m, parse)
    ensures Translate(Children(TopNodes(m)), parse) == Ok(m)
    decreases m
  {
    match m
    case Version(v) =>
      var s := VersionText(v);
      assert s[..8] == "version=" && s[8..] == Semver.Render(v);
      StepToken(TopNodes(m), [], parse);
      assert TopNodes(m)[1..] == [];
    case Name(c) =>
      ParseComparatorText(c, parse);
      StepToken(TopNodes(m), [], parse);
      assert TopNodes(m)[1..] == [];
    case And(a, b) =>
      TranslateShow(a, parse);
      TranslateShow(b, parse);
      TranslatePair(a, AndOp, b, parse);
    case Or(a, b) =>
      TranslateShow(a, parse);
      TranslateShow(b, parse);
      TranslatePair(a, OrOp, b, parse);
  }

  lemma {:induction false} TranslatePair(a: Matcher, op: LexItem, b: Matcher, parse: VersionParser)
    requires op.AndOp? || op.OrOp?
    requires Translate(Children(TopNodes(a)), parse) == Ok(a)
    requires Translate(Children(TopNodes(b)), parse) == Ok(b)
    ensures Translate(Children([Children(TopNodes(a)), Entry(op), Children(TopNodes(b))]), parse) == Ok(Combine(op, a, b))
  {
    var ch := [Children(TopNodes(a)), Entry(op), Children(TopNodes(b))];
    StepGroup(ch, [], parse);
    assert [] + [a] == [a];
    StepOperator(ch[1..], [a], parse);
    assert ch[1..][1] == Children(TopNodes(b)) && ch[1..][2..] == [];
  }

  /** Parsing is a left inverse of printing: every printable matcher,
      written with each operand in parentheses, parses back to itself. */
  lemma {:induction false} ShowParses(m: Matcher, parse: VersionParser)
    requires Printable(m, parse)
    ensures Parse(Show(m), parse) == Ok(m)
  {
    ShowItemsWellLexed(m, parse);
    LexRender(ShowItems(m));
    TraverseShow(m, [], []);
    assert ShowItems(m) + [] == ShowItems(m);
    assert [] + TopNodes(m) == TopNodes(m);
    TranslateShow(m, parse);
  }

  // ------------------------------------------------------ the unit tests

  /** A `version=` word holds whatever the version parser reads from the
      rest of the word. */
  lemma {:induction false} VersionWord(t: string, v: Semver.Version, parse: VersionParser)
    requires parse(t) == Ok(v)
    ensures ParseToken("version=" + t, parse) == Ok(Version(v))
  {
    var s := "version=" + t;
    assert s[..8] == "version=" && s[8..] == t;
  }

  /** A comparator word is a word, and parses to its comparator. */
  lemma {:induction false} ComparatorWord(c: Comparator, parse: VersionParser)
    requires NoSpecial(c.pattern)
    ensures Word(ComparatorText(c)) && ParseToken(ComparatorText(c), parse) == Ok(Name(c))
  {
    ParseComparatorText(c, parse);
    var w := ComparatorText(c);
    NoSpecialJoin(w[..6], c.pattern);
    assert w == w[..6] + c.pattern;
  }

  /** A version word is a word, and parses to the version its text reads as. */
  lemma {:induction false} VersionTextWord(t: string, v: Semver.Version, parse: VersionParser)
    requires NoSpecial(t) && parse(t) == Ok(v)
    ensures Word("version=" + t) && ParseToken("version=" + t, parse) == Ok(Version(v))
  {
    VersionWord(t, v, parse);
    NoSpecialJoin("version=", t);
  }

  /** A comparator word parses on its own to its comparator. */
  lemma {:induction false} ComparatorParses(c: Comparator, parse: VersionParser)
    requires NoSpecial(c.pattern)
    ensures Parse(ComparatorText(c), parse) == Ok(Name(c))
  {
    ComparatorWord(c, parse);
    SingleWord(ComparatorText(c), parse);
  }

  /** A `name=` word parses on its own to an equality. */
  lemma {:induction false} EqualsWordParses(b: string, parse: VersionParser)
    requires NoSpecial(b) && (|b| == 0 || b[0] != '=')
    ensures Parse("name=" + b, parse) == Ok(Name(Eq(b)))
  {
    SingleEqualsIsEq(b, parse);
    NoSpecialJoin("name=", b);
    SingleWord("name=" + b, parse);
  }

  /** The words `version=1.0.0`, `name^=pallet-` and `name==pallet-aura`
      of the tests, with the texts after the operators passed in. */
  lemma {:induction false} TestWords(t: string, a: string, b: string, parse: VersionParser, v: Semver.Version)
    requires t == "1.0.0" && a == "pallet-" && b == "pallet-aura"
    requires parse(t) == Ok(v)
    ensures Word("version=" + t) && ParseToken("version=" + t, parse) == Ok(Version(v))
    ensures Word("name^=" + a) && ParseToken("name^=" + a, parse) == Ok(Name(Starts(a)))
    ensures Word("name==" + b) && ParseToken("name==" + b, parse) == Ok(Name(Eq(b)))
  {
    assert NoSpecial(t) && NoSpecial(a) && NoSpecial(b);
    WordsOf(t, a, b, parse, v);
  }

  lemma {:induction false} WordsOf(t: string, a: string, b: string, parse: VersionParser, v: Semver.Version)
    requires NoSpecial(t) && NoSpecial(a) && NoSpecial(b)
    requires parse(t) == Ok(v)
    ensures Word("version=" + t) && ParseToken("version=" + t, parse) == Ok(Version(v))
    ensures Word("name^=" + a) && ParseToken("name^=" + a, parse) == Ok(Name(Starts(a)))
    ensures Word("name==" + b) && ParseToken("name==" + b, parse) == Ok(Name(Eq(b)))
  {
    VersionTextWord(t, v, parse);
    ComparatorWord(Starts(a), parse);
    ComparatorWord(Eq(b), parse);
  }

  /** `simple_parse_test`, first half: `version=1.0.0`, `name^=pallet-`
      and `name==pallet-aura` each parse on their own and match
      pallet-aura 1.0.0. */
  lemma {:induction false} SimpleParseTest(t: string, a: string, b: string, parse: VersionParser, v: Semver.Version)
    requires t == "1.0.0" && a == "pallet-" && b == "pallet-aura"
    requires parse(t) == Ok(v)
    ensures var p := Package("pallet-aura", v);
      && Parse("version=" + t, parse) == Ok(Version(v)) && Matches(Version(v), p)
      && Parse("name^=" + a, parse) == Ok(Name(Starts(a))) && Matches(Name(Starts(a)), p)
      && Parse("name==" + b, parse) == Ok(Name(Eq(b))) && Matches(Name(Eq(b)), p)
  {
    TestWords(t, a, b, parse, v);
    SingleWord("version=" + t, parse);
    SingleWord("name^=" + a, parse);
    SingleWord("name==" + b, parse);
    assert StartsWith("pallet-aura", a);
  }

  /** `simple_parse_test`, second half: `name=pallet-aura`,
      `name!=frame-aura` and `name$=-aura` each parse on their own and
      match pallet-aura 1.0.0. */
  lemma {:induction false} SimpleParseTestNames(b: string, f: string, e: string, parse: VersionParser, v: Semver.Version)
    requires b == "pallet-aura" && f == "frame-aura" && e == "-aura"
    ensures var p := Package("pallet-aura", v);
      && Parse("name=" + b, parse) == Ok(Name(Eq(b))) && Matches(Name(Eq(b)), p)
      && Parse("name!=" + f, parse) == Ok(Name(Neq(f))) && Matches(Name(Neq(f)), p)
      && Parse("name$=" + e, parse) == Ok(Name(Ends(e))) && Matches(Name(Ends(e)), p)
  {
    assert NoSpecial(b) && b[0] != '=' && NoSpecial(f) && NoSpecial(e);
    EqualsWordParses(b, parse);
    ComparatorParses(Neq(f), parse);
    ComparatorParses(Ends(e), parse);
    assert EndsWith("pallet-aura", e);
  }

  /** The tail `b) || c` of `(a && b) || c`, lexed from an empty token. */
  lemma {:induction false} LexGroupTail(w2: string, w3: string)
    requires Word(w2) && Word(w3)
    ensures LexFrom(w2 + ") || " + w3, "") == [Token(w2), CloseParen, OrOp, Token(w3)]
  {
    var i1 := " " + w3;
    var h1 := "||" + i1;
    var g1 := " " + h1;
    var f1 := ")" + g1;
    assert w2 + ") || " + w3 == w2 + f1;
    AbsorbWord(w2, f1, "");
    assert "" + w2 == w2;
    LexSymbol(CloseParen, g1, w2);
    LexSpace(h1, "");
    LexSymbol(OrOp, i1, "");
    LexSpace(w3, "");
    AbsorbWord(w3, "", "");
    assert w3 + "" == w3 && "" + w3 == w3;
  }

  /** How `(a && b) || c` lexes, for any three words: the spaces after
      the parenthesis and around the operators leave no trace. */
  lemma {:induction false} LexGroupShape(w1: string, w2: string, w3: string)
    requires Word(w1) && Word(w2) && Word(w3)
    ensures Lex("(" + w1 + " && " + w2 + ") || " + w3)
      == [OpenParen, Token(w1), AndOp, Token(w2), CloseParen, OrOp, Token(w3)]
  {
    var e1 := w2 + ") || " + w3;
    var a1 := w1 + " && " + e1;
    assert "(" + w1 + " && " + w2 + ") || " + w3 == "(" + a1;
    assert a1 == w1 + " " + ItemText(AndOp) + " " + e1;
    LexSymbol(OpenParen, a1, "");
    assert ItemText(OpenParen) + a1 == "(" + a1 && Flush("") == [];
    LexWordOp(w1, AndOp, e1);
    LexGroupTail(w2, w3);
  }

  /** A word, then an operator between spaces. */
  lemma {:induction false} LexWordOp(w: string, op: LexItem, rest: string)
    requires Word(w) && (op.AndOp? || op.OrOp?)
    ensures LexFrom(w + " " + ItemText(op) + " " + rest, "") == [Token(w), op] + LexFrom(rest, "")
  {
    var d1 := " " + rest;
    var c1 := ItemText(op) + d1;
    var b1 := " " + c1;
    assert w + " " + ItemText(op) + " " + rest == w + b1;
    calc {
      LexFrom(w + b1, "");
    == { AbsorbWord(w, b1, ""); assert "" + w == w; }
      LexFrom(b1, w);
    == { LexSpace(c1, w); }
      LexFrom(c1, w);
    == { LexSymbol(op, d1, w); }
      Flush(w) + [op] + LexFrom(d1, "");
    == { LexSpace(rest, ""); }
      [Token(w), op] + LexFrom(rest, "");
    }
  }

  /** `group_test`, with the texts after the operators passed in:
      `(version=1.0.0 && name^=pallet-) || name==pallet-aura` parses to
      `(version && starts) || equals`, which matches pallet-aura 1.0.0. */
  lemma {:induction false} GroupTest(t: string, a: string, b: string, parse: VersionParser, v: Semver.Version)
    requires t == "1.0.0" && a == "pallet-" && b == "pallet-aura"
    requires parse(t) == Ok(v)
    ensures Parse("(" + ("version=" + t) + " && " + ("name^=" + a) + ") || " + ("name==" + b), parse)
      == Ok(Or(And(Version(v), Name(Starts(a))), Name(Eq(b))))
    ensures Matches(Or(And(Version(v), Name(Starts(a))), Name(Eq(b))), Package("pallet-aura", v))
  {
    TestWords(t, a, b, parse, v);
    GroupShapeParses("version=" + t, "name^=" + a, "name==" + b, parse);
    assert StartsWith("pallet-aura", a);
  }

  /** `(a && b) || c` parses to `(a && b) || c` for any three words. */
  lemma {:induction false} GroupShapeParses(w1: string, w2: string, w3: string, parse: VersionParser)
    requires Word(w1) && Word(w2) && Word(w3)
    requires ParseToken(w1, parse).Ok? && ParseToken(w2, parse).Ok? && ParseToken(w3, parse).Ok?
    ensures Parse("(" + w1 + " && " + w2 + ") || " + w3, parse)
      == Ok(Or(And(ParseToken(w1, parse).value, ParseToken(w2, parse).value), ParseToken(w3, parse).value))
  {
    LexGroupShape(w1, w2, w3);
    GroupTestItems(w1, w2, w3, parse);
  }

  /** The items of `(a && b) || c` parse to `(a && b) || c`. */
  lemma {:induction false} GroupTestItems(w1: string, w2: string, w3: string, parse: VersionParser)
    requires ParseToken(w1, parse).Ok? && ParseToken(w2, parse).Ok? && ParseToken(w3, parse).Ok?
    ensures ParseItems([OpenParen, Token(w1), AndOp, Token(w2), CloseParen, OrOp, Token(w3)], parse)
      == Ok(Or(And(ParseToken(w1, parse).value, ParseToken(w2, parse).value), ParseToken(w3, parse).value))
  {
    var g := Children([Entry(Token(w1)), Entry(AndOp), Entry(Token(w2))]);
    GroupTestTree(w1, w2, w3);
    TranslateTriple(Entry(Token(w1)), AndOp, Entry(Token(w2)), parse);
    TranslateTriple(g, OrOp, Entry(Token(w3)), parse);
  }

  /** The tree `traverse` builds for `(a && b) || c`. */
  lemma {:induction false} GroupTestTree(w1: string, w2: string, w3: string)
    ensures Traverse([OpenParen, Token(w1), AndOp, Token(w2), CloseParen, OrOp, Token(w3)], []).0
      == Children([Children([Entry(Token(w1)), Entry(AndOp), Entry(Token(w2))]), Entry(OrOp), Entry(Token(w3))])
  {
    var items := [OpenParen, Token(w1), AndOp, Token(w2), CloseParen, OrOp, Token(w3)];
    var inner := [Token(w1), AndOp, Token(w2)];
    var after := [OrOp, Token(w3)];
    TraverseOpen(items, []);
    assert items[1..] == inner + [CloseParen] + after;
    TraverseStopsAtClose(inner, after, []);
    var gch := [Entry(Token(w1)), Entry(AndOp), Entry(Token(w2))];
    assert [] + Entries(inner) == gch;
    var g := Children(gch);
    TraverseFlat(after, [] + [g]);
    assert [] + [g] + Entries(after) == [g, Entry(OrOp), Entry(Token(w3))];
  }
}
