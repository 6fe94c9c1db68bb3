/**
  `as_rule_str`: the tree as nested text rules. A node at indentation level `ident`
  starts with `2 * ident` spaces and has one clause `if <name> = <value>` per child, in
  key order. A node child continues with `:`, a newline, the node's own indentation and
  the child's text at level `ident + 1`; a leaf child ends with ` then <label>` and `.`
  plus a newline at the top level, `, ` below it. A trailing `, ` is cut off and a
  newline added.
 */
module Rules {
  import opened Outcomes
  import opened Values
  import opened Trees

  /** `'  ' * ident` */
  function Spaces(ident: nat): (s: string)
    ensures |s| == 2 * ident
    ensures forall i :: 0 <= i < |s| ==> s[i] == ' '
  {
    if ident == 0 then "" else "  " + Spaces(ident - 1)
  }

  /** `if s[-2:] == ', ': s = s[:-2]` */
  function TrimSeparator(s: string): (r: string)
    ensures |s| >= 2 && s[|s| - 2..] == ", " ==> r + ", " == s
    ensures !(|s| >= 2 && s[|s| - 2..] == ", ") ==> r == s
  {
    if |s| >= 2 && s[|s| - 2..] == ", " then s[..|s| - 2] else s
  }

  /** The text after ` then ` that closes a leaf clause. */
  function LeafEnd(ident: nat, category: Value): string
  {
    " then " + Show(category) + (if ident == 0 then ".\n" else ", ")
  }

  /** The opening `if <name> = <value>` of a clause. */
  function ClauseHead(name: string, key: Value): string
  {
    "if " + name + " = " + Show(key)
  }

  /** Every node among the children of `t` from the `i`-th on is named by an element of `labels`. */
  ghost predicate NamedFrom(t: Tree, labels: seq<string>, i: nat)
    requires t.Node? && i <= |t.children|
  {
    forall j :: i <= j < |t.children| ==> NamesIn(t.children[j].1, labels)
  }

  lemma NamedFromStep(t: Tree, labels: seq<string>, i: nat)
    requires t.Node? && i < |t.children|
    ensures NamedFrom(t, labels, i) <==> NamesIn(t.children[i].1, labels) && NamedFrom(t, labels, i + 1)
  {
  }

  /** The text `as_rule_str(t, labels, ident)` returns, or the exception it raises. */
  function RuleText(t: Tree, labels: seq<string>, ident: nat): (r: Result<string>)
    ensures r.Ok? <==> t.Node? && NamesIn(t, labels)
    ensures r.Err? ==> r.error == NotANode || r.error == UnknownFeature
    decreases t, 2
  {
    match t
    case Leaf(_) => Err(NotANode)
    case Node(name, children) =>
      if IndexOf(labels, name).None? then Err(UnknownFeature)
      else
        match ClausesFrom(t, labels, ident, 0)
        case Err(e) => Err(e)
        case Ok(body) => Ok(TrimSeparator(Spaces(ident) + body) + "\n")
  }

  /**
    The clauses of the children of node `t` from the `i`-th on, concatenated in key
    order, or the exception the first failing one raises.
   */
  function ClausesFrom(t: Tree, labels: seq<string>, ident: nat, i: nat): (r: Result<string>)
    requires t.Node? && i <= |t.children|
    ensures r.Ok? <==> NamedFrom(t, labels, i)
    ensures r.Err? ==> r.error == NotANode || r.error == UnknownFeature
    ensures r.Ok? && i < |t.children| ==> ClauseHead(t.feature, t.children[i].0) <= r.value
    decreases t, 1, |t.children| - i
  {
    if i == |t.children| then Ok("")
    else
      NamedFromStep(t, labels, i);
      match ClauseText(t, labels, ident, i)
      case Err(e) => Err(e)
      case Ok(clause) =>
        match ClausesFrom(t, labels, ident, i + 1)
        case Err(e) => Err(e)
        case Ok(rest) => Ok(clause + rest)
  }

  /** The clause for the `i`-th child of node `t`, which starts with `if <name> = <value>`. */
  function ClauseText(t: Tree, labels: seq<string>, ident: nat, i: nat): (r: Result<string>)
    requires t.Node? && i < |t.children|
    ensures r.Ok? <==> NamesIn(t.children[i].1, labels)
    ensures r.Err? ==> r.error == NotANode || r.error == UnknownFeature
    ensures r.Ok? ==> ClauseHead(t.feature, t.children[i].0) <= r.value
    decreases t, 0
  {
    var (key, child) := t.children[i];
    assert t.children[i] in t.children;
    var head := ClauseHead(t.feature, key);
    match child
    case Node(_, _) =>
      (match RuleText(child, labels, ident + 1)
       case Err(e) => Err(e)
       case Ok(inner) => Ok(head + ":\n" + Spaces(ident) + inner))
    case Leaf(category) => Ok(head + LeafEnd(ident, category))
  }

  /** `prefix` followed by the text of `r`, or the exception of `r`. */
  function Prepend(prefix: string, r: Result<string>): Result<string>
  {
    match r
    case Ok(text) => Ok(prefix + text)
    case Err(e) => Err(e)
  }

  /** A round that produces a clause moves it from the pending clauses into the text. */
  lemma ClauseAppended(t: Tree, labels: seq<string>, ident: nat, i: nat, s: string)
    requires t.Node? && i < |t.children| && ClauseText(t, labels, ident, i).Ok?
    ensures Prepend(s, ClausesFrom(t, labels, ident, i))
         == Prepend(s + ClauseText(t, labels, ident, i).value, ClausesFrom(t, labels, ident, i + 1))
  {
    var clause := ClauseText(t, labels, ident, i).value;
    match ClausesFrom(t, labels, ident, i + 1)
    case Ok(rest) =>
      assert s + (clause + rest) == s + clause + rest;
    case Err(_) =>
  }

  /**
    `as_rule_str(tree, label, ident)`: builds `s` clause by clause in a loop, then trims a
    trailing separator and ends the line.
   */
  method AsRuleStr(t: Tree, labels: seq<string>, ident: nat) returns (r: Result<string>)
    ensures r == RuleText(t, labels, ident)
    decreases t, 1
  {
    if t.Leaf? {
      return Err(NotANode);
    }
    var index := IndexOf(labels, t.feature);
    if index.None? {
      return Err(UnknownFeature);
    }
    var s := Spaces(ident);
    for i := 0 to |t.children|
      invariant Prepend(s, ClausesFrom(t, labels, ident, i)) == Prepend(Spaces(ident), ClausesFrom(t, labels, ident, 0))
    {
      var clause := Clause(t, labels[index.value], labels, ident, i);
      if clause.Err? {
        return Err(clause.error);
      }
      ClauseAppended(t, labels, ident, i, s);
      s := s + clause.value;
    }
    assert s + "" == s;
    s := TrimSeparator(s);
    s := s + "\n";
    return Ok(s);
  }

  /**
    One round of the loop of `as_rule_str`: the clause for the `i`-th child, calling
    `as_rule_str` one level deeper for a node child.
   */
  method Clause(t: Tree, name: string, labels: seq<string>, ident: nat, i: nat) returns (r: Result<string>)
    requires t.Node? && i < |t.children| && name == t.feature
    ensures r == ClauseText(t, labels, ident, i)
    decreases t, 0
  {
    var (k, child) := t.children[i];
    assert t.children[i] in t.children;
    var s := ClauseHead(name, k);
    if child.Node? {
      var inner := AsRuleStr(child, labels, ident + 1);
      if inner.Err? {
        return Err(inner.error);
      }
      s := s + ":\n" + Spaces(ident) + inner.value;
    } else {
      s := s + LeafEnd(ident, child.category);
    }
    return Ok(s);
  }

  /** Cutting a trailing separator never reaches into the indentation. */
  lemma TrimKeepsIndent(indent: string, body: string)
    requires forall i :: 0 <= i < |indent| ==> indent[i] == ' '
    ensures indent <= TrimSeparator(indent + body)
  {
    var s := indent + body;
    if |body| < 2 && |s| >= 2 {
      assert s[|s| - 2] == ' ';
      assert s[|s| - 2..][0] == ' ';
    }
    if |s| >= 2 && s[|s| - 2..] == ", " {
      assert s[..|s| - 2] == indent + body[..|body| - 2];
    }
  }

  /** A rendering starts with the indentation of its level and ends with a newline. */
  lemma RuleLayout(t: Tree, labels: seq<string>, ident: nat)
    requires RuleText(t, labels, ident).Ok?
    ensures Spaces(ident) <= RuleText(t, labels, ident).value
    ensures EndsLine(RuleText(t, labels, ident).value)
  {
    var body := ClausesFrom(t, labels, ident, 0).value;
    TrimKeepsIndent(Spaces(ident), body);
  }

  predicate AllLeaves(children: seq<(Value, Tree)>)
  {
    forall j :: 0 <= j < |children| ==> children[j].1.Leaf?
  }

  /** `if <name> = <value> then <label>` */
  function LeafClause(name: string, entry: (Value, Tree)): string
    requires entry.1.Leaf?
  {
    ClauseHead(name, entry.0) + " then " + Show(entry.1.category)
  }

  /** The leaf clauses of a top-level node, one line each, ending with a full stop. */
  function LinesFrom(name: string, children: seq<(Value, Tree)>, i: nat): string
    requires AllLeaves(children) && i <= |children|
    decreases |children| - i
  {
    if i == |children| then "" else LeafClause(name, children[i]) + ".\n" + LinesFrom(name, children, i + 1)
  }

  /** The leaf clauses of a nested node, on one line, separated by commas. */
  function ChainedFrom(name: string, children: seq<(Value, Tree)>, i: nat): string
    requires AllLeaves(children) && i < |children|
    decreases |children| - i
  {
    if i == |children| - 1 then LeafClause(name, children[i])
    else LeafClause(name, children[i]) + ", " + ChainedFrom(name, children, i + 1)
  }

  /** The clause for a leaf child is the leaf clause and the level's terminator. */
  lemma LeafClauseText(t: Tree, labels: seq<string>, ident: nat, i: nat)
    requires t.Node? && i < |t.children| && t.children[i].1.Leaf?
    ensures ClauseText(t, labels, ident, i)
         == Ok(LeafClause(t.feature, t.children[i]) + (if ident == 0 then ".\n" else ", "))
  {
    var head := ClauseHead(t.feature, t.children[i].0);
    var shown := Show(t.children[i].1.category);
    var stop: string := if ident == 0 then ".\n" else ", ";
    assert head + (" then " + shown + stop) == head + " then " + shown + stop;
  }

  lemma {:induction false} TopLevelClauses(t: Tree, labels: seq<string>, i: nat)
    requires t.Node? && AllLeaves(t.children) && i <= |t.children|
    ensures ClausesFrom(t, labels, 0, i) == Ok(LinesFrom(t.feature, t.children, i))
    decreases |t.children| - i
  {
    if i < |t.children| {
      TopLevelClauses(t, labels, i + 1);
      LeafClauseText(t, labels, 0, i);
    }
  }

  lemma {:induction false} NestedClauses(t: Tree, labels: seq<string>, ident: nat, i: nat)
    requires t.Node? && AllLeaves(t.children) && i < |t.children| && ident > 0
    ensures ClausesFrom(t, labels, ident, i) == Ok(ChainedFrom(t.feature, t.children, i) + ", ")
    decreases |t.children| - i
  {
    var c := LeafClause(t.feature, t.children[i]);
    LeafClauseText(t, labels, ident, i);
    if i < |t.children| - 1 {
      NestedClauses(t, labels, ident, i + 1);
      var rest := ChainedFrom(t.feature, t.children, i + 1);
      assert (c + ", ") + (rest + ", ") == (c + ", " + rest) + ", ";
    } else {
      assert ClausesFrom(t, labels, ident, i + 1) == Ok("");
      assert (c + ", ") + "" == c + ", ";
    }
  }

  /**
    At the top level a node whose children are all leaves renders as one line
    `if <name> = <value> then <label>.` per child, in key order, and an empty line.
   */
  lemma TopLevelRules(t: Tree, labels: seq<string>)
    requires t.Node? && t.feature in labels && AllLeaves(t.children)
    ensures RuleText(t, labels, 0) == Ok(LinesFrom(t.feature, t.children, 0) + "\n")
  {
    TopLevelClauses(t, labels, 0);
    var lines := LinesFrom(t.feature, t.children, 0);
    LinesEndWithNewline(t.feature, t.children, 0);
    assert Spaces(0) + lines == lines;
    assert TrimSeparator(lines) == lines;
  }

  predicate EndsLine(s: string)
  {
    |s| > 0 && s[|s| - 1] == '\n'
  }

  lemma EndsWithNewline(clause: string, rest: string)
    requires rest == [] || EndsLine(rest)
    ensures EndsLine(clause + ".\n" + rest)
  {
  }

  lemma {:induction false} LinesEndWithNewline(name: string, children: seq<(Value, Tree)>, i: nat)
    requires AllLeaves(children) && i <= |children|
    ensures LinesFrom(name, children, i) == [] || EndsLine(LinesFrom(name, children, i))
    decreases |children| - i
  {
    if i < |children| {
      LinesEndWithNewline(name, children, i + 1);
      LinesFromStep(name, children, i);
      EndsWithNewline(LeafClause(name, children[i]), LinesFrom(name, children, i + 1));
    }
  }

  lemma LinesFromStep(name: string, children: seq<(Value, Tree)>, i: nat)
    requires AllLeaves(children) && i < |children|
    ensures LinesFrom(name, children, i) == LeafClause(name, children[i]) + ".\n" + LinesFrom(name, children, i + 1)
  {
  }

  /**
    Below the top level a node whose children are all leaves renders as its indentation
    and the clauses `if <name> = <value> then <label>` joined by `, `: the separator after
    the last clause is cut off before the newline.
   */
  lemma NestedRules(t: Tree, labels: seq<string>, ident: nat)
    requires t.Node? && t.feature in labels && AllLeaves(t.children) && |t.children| > 0 && ident > 0
    ensures RuleText(t, labels, ident) == Ok(Spaces(ident) + ChainedFrom(t.feature, t.children, 0) + "\n")
  {
    NestedClauses(t, labels, ident, 0);
    var chained := ChainedFrom(t.feature, t.children, 0);
    var s := Spaces(ident) + (chained + ", ");
    assert s[|s| - 2..] == ", ";
    assert s[..|s| - 2] == Spaces(ident) + chained;
  }

  lemma {:induction false} SpacesAdd(a: nat, b: nat)
    ensures Spaces(a) + Spaces(b) == Spaces(a + b)
    decreases a
  {
    if a > 0 {
      SpacesAdd(a - 1, b);
      assert "  " + Spaces(a - 1) + Spaces(b) == "  " + (Spaces(a - 1) + Spaces(b));
    }
  }

  /**
    Nested text is indented twice: after the clause head of a node child come the
    parent's indentation and then the child's own, `2 * ident + 2 * (ident + 1)` spaces
    in all (`Spaces(2 * ident + 1)`), so a node at depth 2 starts with 6 spaces rather
    than 4.
   */
  lemma DoubleIndent(t: Tree, labels: seq<string>, ident: nat, i: nat)
    requires t.Node? && i < |t.children| && t.children[i].1.Node?
    requires ClauseText(t, labels, ident, i).Ok?
    ensures ClauseHead(t.feature, t.children[i].0) + ":\n" + Spaces(2 * ident + 1) <= ClauseText(t, labels, ident, i).value
  {
    var child := t.children[i].1;
    var inner := NodeClause(t, labels, ident, i);
    RuleLayout(child, labels, ident + 1);
    SpacesAdd(ident, ident + 1);
    PrefixAfter(ClauseHead(t.feature, t.children[i].0) + ":\n", Spaces(ident), Spaces(ident + 1), inner);
  }

  /** The text of a clause whose child is a node: the head, a colon, the parent's indentation, then the child's rules. */
  lemma NodeClause(t: Tree, labels: seq<string>, ident: nat, i: nat) returns (inner: string)
    requires t.Node? && i < |t.children| && t.children[i].1.Node?
    requires ClauseText(t, labels, ident, i).Ok?
    ensures RuleText(t.children[i].1, labels, ident + 1) == Ok(inner)
    ensures ClauseText(t, labels, ident, i).value == ClauseHead(t.feature, t.children[i].0) + ":\n" + Spaces(ident) + inner
  {
    inner := RuleText(t.children[i].1, labels, ident + 1).value;
  }

  lemma PrefixAfter(head: string, a: string, p: string, s: string)
    requires p <= s
    ensures head + (a + p) <= head + a + s
  {
    assert head + (a + p) == (head + a) + p;
    assert (head + a + s)[..|head + a + p|] == (head + a) + s[..|p|];
  }
}
