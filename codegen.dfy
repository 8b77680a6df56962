/** C emission: `generate_code` and its per-kind helpers as functions that
    return the text they would write to the output stream. */
module Codegen {
  import opened Decimal
  import opened Ast

  /** Four spaces per indentation level; none for a level that is not positive. */
  function Indent(indent: int): (s: string)
    ensures |s| == if indent <= 0 then 0 else 4 * indent
    ensures forall i :: 0 <= i < |s| ==> s[i] == ' '
  {
    Repeat("    ", indent)
  }

  lemma {:induction false} RepeatSnoc(unit: string, n: nat)
    ensures Repeat(unit, n) + unit == Repeat(unit, n + 1)
  {
    if n > 0 {
      RepeatSnoc(unit, n - 1);
      assert unit + Repeat(unit, n - 1) + unit == unit + (Repeat(unit, n - 1) + unit);
    }
  }

  /** `write_indentation`: its loop writes four spaces `indent` times. */
  method WriteIndentation(indent: int) returns (text: string)
    ensures text == Indent(indent)
    ensures |text| == if indent <= 0 then 0 else 4 * indent
  {
    text := "";
    var i := 0;
    while i < indent
      invariant indent <= 0 ==> i == 0
      invariant indent > 0 ==> 0 <= i <= indent
      invariant text == Repeat("    ", i)
    {
      RepeatSnoc("    ", i);
      text := text + "    ";
      i := i + 1;
    }
  }

  /** What `%s` prints for a node's text; glibc prints `(null)` for a missing string. */
  function Shown(value: Option<string>): string {
    if value.Some? then value.value else "(null)"
  }

  /** `generate_code` with one switch. With `detach` false it is the C code:
      the condition and the update of a `for` header are printed with
      `generate_code`, which goes on along their sibling chains. With `detach`
      true each of the two is printed without its siblings. */
  function Emit(t: Tree, indent: int, detach: bool): string
    decreases Size(t), 1
  {
    if t.Nil? then "" else Own(t.kind, t.value, t.left, t.right, indent, detach) + Emit(t.next, indent, detach)
  }

  /** The text of one node without its sibling chain: the `switch` of
      `generate_code`, which reads the kind, the text and the two child slots. */
  function Own(kind: int, value: Option<string>, left: Tree, right: Tree, indent: int, detach: bool): string
    decreases 1 + Size(left) + Size(right), 0
  {
    if kind == KindInt || kind == KindVar then
      if value.Some? then value.value else ""
    else if kind == KindBinOp then
      Operand(left, detach) + " " + Shown(value) + " " + Operand(right, detach)
    else if kind == KindDecl then
      if value.None? then ""
      else Indent(indent) + "int " + value.value + " = " + (if left.Node? then Emit(left, 0, detach) else "0") + ";\n"
    else if kind == KindIf then
      Indent(indent) + "if (" + Emit(left, 0, detach) + ") {\n" + Emit(right, indent + 1, detach) + Indent(indent) + "}\n"
    else if kind == KindFor then
      Indent(indent) + "for (" + Emit(left, 0, detach) + "; " + Header(right, detach) + "; "
      + (if right.Node? then Header(right.next, detach) else "") + ") {\n"
      + (if right.Node? && right.next.Node? then Emit(right.next.next, indent + 1, detach) else "")
      + Indent(indent) + "}\n"
    else if kind == KindFuncDef then
      if value.None? then ""
      else Indent(indent) + "int " + value.value + "() {\n" + Emit(left, indent + 1, detach) + Indent(indent) + "}\n"
    else if kind == KindReturn then
      Indent(indent) + "return " + (if left.Node? then Emit(left, 0, detach) else "0") + ";\n"
    else if kind == KindSeq then
      Emit(left, indent, detach) + Emit(right, indent, detach)
    else
      ""
  }

  /** An operand of a binary expression, in parentheses when it is itself a `BinOp`. */
  function Operand(t: Tree, detach: bool): string
    decreases Size(t), 2
  {
    if t.Nil? then ""
    else if t.kind == KindBinOp then "(" + Emit(t, 0, detach) + ")"
    else Emit(t, 0, detach)
  }

  /** The condition or the update in a `for` header. */
  function Header(t: Tree, detach: bool): string
    decreases Size(t), 2
  {
    if t.Nil? then ""
    else if detach then Own(t.kind, t.value, t.left, t.right, 0, detach)
    else Emit(t, 0, detach)
  }

  /** No node text contains a brace or a parenthesis. */
  predicate BracketFree(t: Tree) {
    NoCharInValues(t, '{') && NoCharInValues(t, '}') && NoCharInValues(t, '(') && NoCharInValues(t, ')')
  }

  /** Braces and parentheses written by the code generator pair up in number. */
  predicate BracketsBalanced(s: string) {
    Occurrences(s, '{') == Occurrences(s, '}') && Occurrences(s, '(') == Occurrences(s, ')')
  }

  /** `generate_code` as written. */
  function GenerateCode(t: Tree, indent: int): (s: string)
    ensures t.Nil? ==> s == ""
    ensures BracketFree(t) ==> BracketsBalanced(s)
  {
    EmitBracketsBalanced(t, indent, false);
    Emit(t, indent, false)
  }

  /** `generate_code` with each `for` header slot printed without its siblings. */
  function GenerateCodeDetached(t: Tree, indent: int): (s: string)
    ensures t.Nil? ==> s == ""
    ensures BracketFree(t) ==> BracketsBalanced(s)
  {
    EmitBracketsBalanced(t, indent, true);
    Emit(t, indent, true)
  }

  lemma EmitBracketsBalanced(t: Tree, indent: int, detach: bool)
    ensures BracketFree(t) ==> BracketsBalanced(Emit(t, indent, detach))
  {
    if BracketFree(t) {
      EmitBalanced(t, indent, detach, '{', '}');
      EmitBalanced(t, indent, detach, '(', ')');
    }
  }

  /** The code of an integer literal node reads back, with `atoi`, as its value. */
  lemma IntLiteralCodeReadsBack(n: int, indent: int)
    ensures Atoi(GenerateCode(MakeInt(n), indent)) == n
  {
    var t := MakeInt(n);
    assert Own(t.kind, t.value, t.left, t.right, indent, false) == t.value.value;
    EmitSingle(t, indent, false);
  }

  /** A node with no sibling is written as its own text alone. */
  lemma EmitSingle(t: Tree, indent: int, detach: bool)
    requires t.Node? && t.next.Nil?
    ensures Emit(t, indent, detach) == Own(t.kind, t.value, t.left, t.right, indent, detach)
  {
    assert Emit(t.next, indent, detach) == [];
  }

  /** The code of a chain extended with `add_sibling` is the code of the
      chain followed by the code of the added siblings. */
  lemma {:induction false} EmitAddSibling(a: Tree, b: Tree, indent: int, detach: bool)
    requires a.Node?
    ensures Emit(AddSibling(a, b), indent, detach) == Emit(a, indent, detach) + Emit(b, indent, detach)
    decreases Size(a), 1
  {
    if b.Nil? {
      assert Emit(b, indent, detach) == "";
    } else if a.next.Nil? {
      assert Emit(a, indent, detach) == Own(a.kind, a.value, a.left, a.right, indent, detach) + "";
    } else {
      EmitAddSiblingLater(a, b, indent, detach);
    }
  }

  /** The case of `EmitAddSibling` where the siblings go further down the chain. */
  lemma {:induction false} EmitAddSiblingLater(a: Tree, b: Tree, indent: int, detach: bool)
    requires a.Node? && a.next.Node? && b.Node?
    ensures Emit(AddSibling(a, b), indent, detach) == Emit(a, indent, detach) + Emit(b, indent, detach)
    decreases Size(a), 0
  {
    var own := Own(a.kind, a.value, a.left, a.right, indent, detach);
    var tail := AddSibling(a.next, b);
    assert AddSibling(a, b) == Node(a.kind, a.value, a.left, a.right, tail);
    EmitAddSibling(a.next, b, indent, detach);
    var rest, added := Emit(a.next, indent, detach), Emit(b, indent, detach);
    assert Emit(tail, indent, detach) == rest + added;
    assert Emit(AddSibling(a, b), indent, detach) == own + (rest + added);
    assert own + (rest + added) == own + rest + added;
  }

  /** A statement node's code starts with its indentation. */
  lemma StatementStartsIndented(t: Tree, indent: int, detach: bool)
    requires t.Node?
    requires t.kind in {KindIf, KindFor, KindReturn} || (t.kind in {KindDecl, KindFuncDef} && t.value.Some?)
    ensures Indent(indent) <= Emit(t, indent, detach)
  {
    var own := Own(t.kind, t.value, t.left, t.right, indent, detach);
    assert Emit(t, indent, detach) == own + Emit(t.next, indent, detach);
    OwnStartsIndented(t.kind, t.value, t.left, t.right, indent, detach);
    PrefixExtend(Indent(indent), own, Emit(t.next, indent, detach));
  }

  lemma OwnStartsIndented(kind: int, value: Option<string>, left: Tree, right: Tree, indent: int, detach: bool)
    requires kind in {KindIf, KindFor, KindReturn} || (kind in {KindDecl, KindFuncDef} && value.Some?)
    ensures Indent(indent) <= Own(kind, value, left, right, indent, detach)
  {
    if kind == KindIf {
      IfStartsIndented(value, left, right, indent, detach);
    } else if kind == KindFor {
      ForStartsIndented(value, left, right, indent, detach);
    } else if kind == KindReturn {
      ReturnStartsIndented(value, left, right, indent, detach);
    } else if kind == KindDecl {
      DeclStartsIndented(value, left, right, indent, detach);
    } else {
      FunctionStartsIndented(value, left, right, indent, detach);
    }
  }

  lemma IfStartsIndented(value: Option<string>, left: Tree, right: Tree, indent: int, detach: bool)
    ensures Indent(indent) <= Own(KindIf, value, left, right, indent, detach)
  {
    var pad := Indent(indent);
    Spine6(pad, "if (", Emit(left, 0, detach), ") {\n", Emit(right, indent + 1, detach), pad, "}\n");
  }

  lemma ForStartsIndented(value: Option<string>, left: Tree, right: Tree, indent: int, detach: bool)
    ensures Indent(indent) <= Own(KindFor, value, left, right, indent, detach)
  {
    var pad := Indent(indent);
    var update := if right.Node? then Header(right.next, detach) else "";
    var body := if right.Node? && right.next.Node? then Emit(right.next.next, indent + 1, detach) else "";
    Spine10(pad, "for (", Emit(left, 0, detach), "; ", Header(right, detach), "; ", update, ") {\n", body, pad, "}\n");
  }

  lemma ReturnStartsIndented(value: Option<string>, left: Tree, right: Tree, indent: int, detach: bool)
    ensures Indent(indent) <= Own(KindReturn, value, left, right, indent, detach)
  {
    Spine3(Indent(indent), "return ", if left.Node? then Emit(left, 0, detach) else "0", ";\n");
  }

  lemma DeclStartsIndented(value: Option<string>, left: Tree, right: Tree, indent: int, detach: bool)
    requires value.Some?
    ensures Indent(indent) <= Own(KindDecl, value, left, right, indent, detach)
  {
    Spine6(Indent(indent), "int ", value.value, " = ", if left.Node? then Emit(left, 0, detach) else "0", ";\n", "");
  }

  lemma FunctionStartsIndented(value: Option<string>, left: Tree, right: Tree, indent: int, detach: bool)
    requires value.Some?
    ensures Indent(indent) <= Own(KindFuncDef, value, left, right, indent, detach)
  {
    var pad := Indent(indent);
    Spine6(pad, "int ", value.value, "() {\n", Emit(left, indent + 1, detach), pad, "}\n");
  }

  lemma Spine10(p: string, a: string, b: string, c: string, d: string, e: string, f: string, g: string, h: string, i: string, j: string)
    ensures p <= p + a + b + c + d + e + f + g + h + i + j
  {
  }

  lemma Spine3(p: string, a: string, b: string, c: string)
    ensures p <= p + a + b + c
  {
  }

  lemma Spine6(p: string, a: string, b: string, c: string, d: string, e: string, f: string)
    ensures p <= p + a + b + c + d + e + f
  {
  }

  lemma PrefixExtend(p: string, s: string, t: string)
    requires p <= s
    ensures p <= s + t
  {
    assert (s + t)[..|p|] == s[..|p|];
  }

  /** The finding in the `for` header: for a loop built from single-node parts,
      the condition slot of the C code repeats the update and the body after
      the condition, and the update slot repeats the body. */
  lemma ForHeaderEchoesSiblings(init: Tree, cond: Tree, update: Tree, body: Tree, indent: int)
    requires cond.Node? && cond.next.Nil? && update.Node? && update.next.Nil? && body.Node? && body.next.Nil?
    ensures GenerateCode(MakeFor(init, cond, update, body), indent)
      == Indent(indent) + "for (" + GenerateCode(init, 0) + "; "
         + GenerateCode(cond, 0) + GenerateCode(update, 0) + GenerateCode(body, 0) + "; "
         + GenerateCode(update, 0) + GenerateCode(body, 0) + ") {\n"
         + GenerateCode(body, indent + 1) + Indent(indent) + "}\n"
  {
    ForEmitEchoesSiblings(init, cond, update, body, indent);
  }

  lemma ForEmitEchoesSiblings(init: Tree, cond: Tree, update: Tree, body: Tree, indent: int)
    requires cond.Node? && cond.next.Nil? && update.Node? && update.next.Nil? && body.Node? && body.next.Nil?
    ensures Emit(MakeFor(init, cond, update, body), indent, false)
      == Indent(indent) + "for (" + Emit(init, 0, false) + "; "
         + Emit(cond, 0, false) + Emit(update, 0, false) + Emit(body, 0, false) + "; "
         + Emit(update, 0, false) + Emit(body, 0, false) + ") {\n"
         + Emit(body, indent + 1, false) + Indent(indent) + "}\n"
  {
    ForLayout(init, cond, update, body);
    ForHeaderSlots(cond, update, body, false);
    var f := MakeFor(init, cond, update, body);
    EmitSingle(f, indent, false);
    var pad, i := Indent(indent), Emit(init, 0, false);
    var c, u, b := Emit(cond, 0, false), Emit(update, 0, false), Emit(body, 0, false);
    var inner := Emit(body, indent + 1, false);
    assert f.right.next.next == body;
    assert Header(f.right, false) == c + u + b && Header(f.right.next, false) == u + b;
    OwnFor(init, f.right, indent, false);
    ForFlatten(pad, i, c, u, b, inner);
  }

  /** The text of a `for` node whose condition has a sibling. */
  lemma OwnFor(left: Tree, right: Tree, indent: int, detach: bool)
    requires right.Node? && right.next.Node?
    ensures Own(KindFor, None, left, right, indent, detach)
      == Indent(indent) + "for (" + Emit(left, 0, detach) + "; " + Header(right, detach) + "; "
         + Header(right.next, detach) + ") {\n" + Emit(right.next.next, indent + 1, detach) + Indent(indent) + "}\n"
  {
  }

  lemma ForFlatten(pad: string, i: string, c: string, u: string, b: string, inner: string)
    ensures pad + "for (" + i + "; " + (c + u + b) + "; " + (u + b) + ") {\n" + inner + pad + "}\n"
      == pad + "for (" + i + "; " + c + u + b + "; " + u + b + ") {\n" + inner + pad + "}\n"
  {
  }

  /** With each header slot printed alone, the header holds exactly the
      condition and the update, and the body appears once, inside the braces. */
  lemma ForHeaderDetached(init: Tree, cond: Tree, update: Tree, body: Tree, indent: int)
    requires cond.Node? && cond.next.Nil? && update.Node? && update.next.Nil? && body.Node? && body.next.Nil?
    ensures GenerateCodeDetached(MakeFor(init, cond, update, body), indent)
      == Indent(indent) + "for (" + GenerateCodeDetached(init, 0) + "; "
         + GenerateCodeDetached(cond, 0) + "; " + GenerateCodeDetached(update, 0) + ") {\n"
         + GenerateCodeDetached(body, indent + 1) + Indent(indent) + "}\n"
  {
    ForLayout(init, cond, update, body);
    ForHeaderSlots(cond, update, body, true);
    var f := MakeFor(init, cond, update, body);
    EmitSingle(f, indent, true);
    var pre := Indent(indent) + "for (" + Emit(init, 0, true) + "; ";
    var post := ") {\n" + Emit(body, indent + 1, true) + Indent(indent) + "}\n";
    assert Own(KindFor, None, init, f.right, indent, true) == pre + Emit(cond, 0, true) + "; " + Emit(update, 0, true) + post;
  }

  lemma ForHeaderSlots(cond: Tree, update: Tree, body: Tree, detach: bool)
    requires cond.Node? && cond.next.Nil? && update.Node? && update.next.Nil? && body.Node? && body.next.Nil?
    ensures var chain := cond.(next := update.(next := body));
      Header(chain, detach) == (if detach then Emit(cond, 0, detach)
                               else Emit(cond, 0, detach) + Emit(update, 0, detach) + Emit(body, 0, detach))
      && Header(chain.next, detach) == (if detach then Emit(update, 0, detach)
                                        else Emit(update, 0, detach) + Emit(body, 0, detach))
  {
    var tail := update.(next := body);
    var chain := cond.(next := tail);
    var c := Own(cond.kind, cond.value, cond.left, cond.right, 0, detach);
    var u := Own(update.kind, update.value, update.left, update.right, 0, detach);
    EmitSingle(cond, 0, detach);
    EmitSingle(update, 0, detach);
    assert Emit(tail, 0, detach) == u + Emit(body, 0, detach);
    assert Emit(chain, 0, detach) == c + (u + Emit(body, 0, detach));
  }

  /** Opening minus closing occurrences of a bracket pair. */
  function Net(s: string, open: char, close: char): int {
    Occurrences(s, open) - Occurrences(s, close)
  }

  predicate BracketPair(open: char, close: char) {
    (open == '{' && close == '}') || (open == '(' && close == ')')
  }

  lemma NetConcat(a: string, b: string, open: char, close: char)
    ensures Net(a + b, open, close) == Net(a, open, close) + Net(b, open, close)
  {
    OccurrencesConcat(a, b, open);
    OccurrencesConcat(a, b, close);
  }

  lemma NetAbsent(s: string, open: char, close: char)
    requires open !in s && close !in s
    ensures Net(s, open, close) == 0
  {
    OccurrencesAbsent(s, open);
    OccurrencesAbsent(s, close);
  }

  /** Bracket counts of the fixed pieces of text `generate_code` writes. */
  lemma BraceCountsOfWords()
    ensures Net(" ", '{', '}') == 0 && Net("int ", '{', '}') == 0 && Net(" = ", '{', '}') == 0
    ensures Net("0", '{', '}') == 0 && Net(";\n", '{', '}') == 0 && Net("; ", '{', '}') == 0
  {
  }

  lemma BraceCountsOfKeywords()
    ensures Net("return ", '{', '}') == 0 && Net("(null)", '{', '}') == 0
  {
  }

  lemma BraceCountsOfParens()
    ensures Net("(", '{', '}') == 0 && Net(")", '{', '}') == 0
  {
  }

  lemma BraceCountsOfHeads()
    ensures Net("if (", '{', '}') == 0 && Net("for (", '{', '}') == 0
  {
  }

  lemma BraceCountsOfBlocks()
    ensures Net(") {\n", '{', '}') == 1 && Net("() {\n", '{', '}') == 1 && Net("}\n", '{', '}') == -1
  {
  }

  lemma ParenCountsOfWords()
    ensures Net(" ", '(', ')') == 0 && Net("int ", '(', ')') == 0 && Net(" = ", '(', ')') == 0
    ensures Net("0", '(', ')') == 0 && Net(";\n", '(', ')') == 0 && Net("; ", '(', ')') == 0
  {
  }

  lemma ParenCountsOfKeywords()
    ensures Net("return ", '(', ')') == 0 && Net("(null)", '(', ')') == 0
  {
  }

  lemma ParenCountsOfParens()
    ensures Net("(", '(', ')') == 1 && Net(")", '(', ')') == -1
  {
  }

  lemma ParenCountsOfHeads()
    ensures Net("if (", '(', ')') == 1 && Net("for (", '(', ')') == 1
  {
  }

  lemma ParenCountsOfBlocks()
    ensures Net(") {\n", '(', ')') == -1 && Net("() {\n", '(', ')') == 0 && Net("}\n", '(', ')') == 0
  {
  }

  /** The counts of every fixed piece, for either bracket pair. */
  lemma PieceCounts(open: char, close: char)
    requires BracketPair(open, close)
    ensures Net(" ", open, close) == 0 && Net("int ", open, close) == 0 && Net(" = ", open, close) == 0
    ensures Net("0", open, close) == 0 && Net(";\n", open, close) == 0 && Net("; ", open, close) == 0
    ensures Net("return ", open, close) == 0 && Net("(null)", open, close) == 0
    ensures Net("(", open, close) + Net(")", open, close) == 0
    ensures Net("if (", open, close) + Net(") {\n", open, close) + Net("}\n", open, close) == 0
    ensures Net("for (", open, close) + Net(") {\n", open, close) + Net("}\n", open, close) == 0
    ensures Net("() {\n", open, close) + Net("}\n", open, close) == 0
  {
    BraceCountsOfWords();
    BraceCountsOfKeywords();
    BraceCountsOfParens();
    BraceCountsOfHeads();
    BraceCountsOfBlocks();
    ParenCountsOfWords();
    ParenCountsOfKeywords();
    ParenCountsOfParens();
    ParenCountsOfHeads();
    ParenCountsOfBlocks();
  }

  /** A block statement: a header opened by `opener`, the header's own text,
      `closer` ending the header and opening the block, the body, and the
      closing brace at the statement's indentation. */
  lemma {:induction false} BlockTextBalanced(pad: string, opener: string, inner: string, closer: string, body: string, open: char, close: char)
    requires Net(pad, open, close) == 0 && Net(inner, open, close) == 0 && Net(body, open, close) == 0
    requires Net(opener, open, close) + Net(closer, open, close) + Net("}\n", open, close) == 0
    ensures Net(pad + opener + inner + closer + body + pad + "}\n", open, close) == 0
  {
    NetConcat(pad, opener, open, close);
    NetConcat(pad + opener, inner, open, close);
    NetConcat(pad + opener + inner, closer, open, close);
    NetConcat(pad + opener + inner + closer, body, open, close);
    NetConcat(pad + opener + inner + closer + body, pad, open, close);
    NetConcat(pad + opener + inner + closer + body + pad, "}\n", open, close);
  }

  lemma {:induction false} ForTextBalanced(pad: string, init: string, cond: string, update: string, body: string, open: char, close: char)
    requires BracketPair(open, close)
    requires Net(pad, open, close) == 0 && Net(init, open, close) == 0 && Net(cond, open, close) == 0
    requires Net(update, open, close) == 0 && Net(body, open, close) == 0
    ensures Net(pad + "for (" + init + "; " + cond + "; " + update + ") {\n" + body + pad + "}\n", open, close) == 0
  {
    PieceCounts(open, close);
    var s0 := pad + "for (";
    var s1 := s0 + init;
    var s2 := s1 + "; ";
    var s3 := s2 + cond;
    var s4 := s3 + "; ";
    var s5 := s4 + update;
    var s6 := s5 + ") {\n";
    var s7 := s6 + body;
    var s8 := s7 + pad;
    NetConcat(pad, "for (", open, close);
    NetConcat(s0, init, open, close);
    NetConcat(s1, "; ", open, close);
    NetConcat(s2, cond, open, close);
    NetConcat(s3, "; ", open, close);
    NetConcat(s4, update, open, close);
    NetConcat(s5, ") {\n", open, close);
    NetConcat(s6, body, open, close);
    NetConcat(s7, pad, open, close);
    NetConcat(s8, "}\n", open, close);
  }

  lemma {:induction false} DeclTextBalanced(pad: string, name: string, init: string, open: char, close: char)
    requires BracketPair(open, close)
    requires Net(pad, open, close) == 0 && Net(name, open, close) == 0 && Net(init, open, close) == 0
    ensures Net(pad + "int " + name + " = " + init + ";\n", open, close) == 0
  {
    PieceCounts(open, close);
    NetConcat(pad, "int ", open, close);
    NetConcat(pad + "int ", name, open, close);
    NetConcat(pad + "int " + name, " = ", open, close);
    NetConcat(pad + "int " + name + " = ", init, open, close);
    NetConcat(pad + "int " + name + " = " + init, ";\n", open, close);
  }

  lemma {:induction false} ReturnTextBalanced(pad: string, expr: string, open: char, close: char)
    requires BracketPair(open, close)
    requires Net(pad, open, close) == 0 && Net(expr, open, close) == 0
    ensures Net(pad + "return " + expr + ";\n", open, close) == 0
  {
    PieceCounts(open, close);
    NetConcat(pad, "return ", open, close);
    NetConcat(pad + "return ", expr, open, close);
    NetConcat(pad + "return " + expr, ";\n", open, close);
  }

  lemma {:induction false} BinaryTextBalanced(lhs: string, op: string, rhs: string, open: char, close: char)
    requires BracketPair(open, close)
    requires Net(lhs, open, close) == 0 && Net(op, open, close) == 0 && Net(rhs, open, close) == 0
    ensures Net(lhs + " " + op + " " + rhs, open, close) == 0
  {
    PieceCounts(open, close);
    NetConcat(lhs, " ", open, close);
    NetConcat(lhs + " ", op, open, close);
    NetConcat(lhs + " " + op, " ", open, close);
    NetConcat(lhs + " " + op + " ", rhs, open, close);
  }

  lemma {:induction false} ParenthesizedBalanced(inner: string, open: char, close: char)
    requires BracketPair(open, close)
    requires Net(inner, open, close) == 0
    ensures Net("(" + inner + ")", open, close) == 0
  {
    PieceCounts(open, close);
    NetConcat("(", inner, open, close);
    NetConcat("(" + inner, ")", open, close);
  }

  lemma IndentBalanced(indent: int, open: char, close: char)
    requires BracketPair(open, close)
    ensures Net(Indent(indent), open, close) == 0
  {
    NetAbsent(Indent(indent), open, close);
  }

  /** The text has no character of the pair. */
  predicate Plain(value: Option<string>, open: char, close: char) {
    value.None? || (open !in value.value && close !in value.value)
  }

  /** When no node text contains a bracket, the code `generate_code` writes has
      as many opening as closing braces, and as many opening as closing
      parentheses. */
  lemma {:induction false} EmitBalanced(t: Tree, indent: int, detach: bool, open: char, close: char)
    requires BracketPair(open, close) && NoCharInValues(t, open) && NoCharInValues(t, close)
    ensures Net(Emit(t, indent, detach), open, close) == 0
    decreases Size(t), 3
  {
    if t.Node? {
      OwnBalanced(t.kind, t.value, t.left, t.right, indent, detach, open, close);
      EmitBalanced(t.next, indent, detach, open, close);
      NetConcat(Own(t.kind, t.value, t.left, t.right, indent, detach), Emit(t.next, indent, detach), open, close);
    } else {
      assert Emit(t, indent, detach) == [];
    }
  }

  lemma {:induction false} OwnBalanced(kind: int, value: Option<string>, left: Tree, right: Tree, indent: int, detach: bool, open: char, close: char)
    requires BracketPair(open, close) && Plain(value, open, close)
    requires NoCharInValues(left, open) && NoCharInValues(left, close)
    requires NoCharInValues(right, open) && NoCharInValues(right, close)
    ensures Net(Own(kind, value, left, right, indent, detach), open, close) == 0
    decreases 1 + Size(left) + Size(right), 2
  {
    if kind == KindInt || kind == KindVar {
      if value.Some? {
        NetAbsent(value.value, open, close);
      } else {
        assert Own(kind, value, left, right, indent, detach) == [];
      }
    } else if kind == KindBinOp {
      BinaryOwnBalanced(value, left, right, indent, detach, open, close);
    } else if kind == KindDecl {
      DeclOwnBalanced(value, left, right, indent, detach, open, close);
    } else if kind == KindIf {
      IfOwnBalanced(value, left, right, indent, detach, open, close);
    } else if kind == KindFor {
      ForOwnBalanced(value, left, right, indent, detach, open, close);
    } else if kind == KindFuncDef {
      FunctionOwnBalanced(value, left, right, indent, detach, open, close);
    } else if kind == KindReturn {
      ReturnOwnBalanced(value, left, right, indent, detach, open, close);
    } else if kind == KindSeq {
      SeqOwnBalanced(value, left, right, indent, detach, open, close);
    } else {
      assert Own(kind, value, left, right, indent, detach) == [];
    }
  }

  lemma {:induction false} BinaryOwnBalanced(value: Option<string>, left: Tree, right: Tree, indent: int, detach: bool, open: char, close: char)
    requires BracketPair(open, close) && Plain(value, open, close)
    requires NoCharInValues(left, open) && NoCharInValues(left, close)
    requires NoCharInValues(right, open) && NoCharInValues(right, close)
    ensures Net(Own(KindBinOp, value, left, right, indent, detach), open, close) == 0
    decreases 1 + Size(left) + Size(right), 1
  {
    PieceCounts(open, close);
    OperandBalanced(left, detach, open, close);
    OperandBalanced(right, detach, open, close);
    if value.Some? {
      NetAbsent(value.value, open, close);
    }
    BinaryTextBalanced(Operand(left, detach), Shown(value), Operand(right, detach), open, close);
  }

  lemma {:induction false} DeclOwnBalanced(value: Option<string>, left: Tree, right: Tree, indent: int, detach: bool, open: char, close: char)
    requires BracketPair(open, close) && Plain(value, open, close)
    requires NoCharInValues(left, open) && NoCharInValues(left, close)
    requires NoCharInValues(right, open) && NoCharInValues(right, close)
    ensures Net(Own(KindDecl, value, left, right, indent, detach), open, close) == 0
    decreases 1 + Size(left) + Size(right), 1
  {
    if value.Some? {
      PieceCounts(open, close);
      IndentBalanced(indent, open, close);
      NetAbsent(value.value, open, close);
      EmitBalanced(left, 0, detach, open, close);
      var init := if left.Node? then Emit(left, 0, detach) else "0";
      DeclTextBalanced(Indent(indent), value.value, init, open, close);
    } else {
      assert Own(KindDecl, value, left, right, indent, detach) == [];
    }
  }

  lemma {:induction false} IfOwnBalanced(value: Option<string>, left: Tree, right: Tree, indent: int, detach: bool, open: char, close: char)
    requires BracketPair(open, close)
    requires NoCharInValues(left, open) && NoCharInValues(left, close)
    requires NoCharInValues(right, open) && NoCharInValues(right, close)
    ensures Net(Own(KindIf, value, left, right, indent, detach), open, close) == 0
    decreases 1 + Size(left) + Size(right), 1
  {
    IndentBalanced(indent, open, close);
    EmitBalanced(left, 0, detach, open, close);
    EmitBalanced(right, indent + 1, detach, open, close);
    assert Net("if (", open, close) + Net(") {\n", open, close) + Net("}\n", open, close) == 0 by {
      PieceCounts(open, close);
    }
    BlockTextBalanced(Indent(indent), "if (", Emit(left, 0, detach), ") {\n", Emit(right, indent + 1, detach), open, close);
  }

  lemma {:induction false} FunctionOwnBalanced(value: Option<string>, left: Tree, right: Tree, indent: int, detach: bool, open: char, close: char)
    requires BracketPair(open, close) && Plain(value, open, close)
    requires NoCharInValues(left, open) && NoCharInValues(left, close)
    requires NoCharInValues(right, open) && NoCharInValues(right, close)
    ensures Net(Own(KindFuncDef, value, left, right, indent, detach), open, close) == 0
    decreases 1 + Size(left) + Size(right), 1
  {
    if value.Some? {
      IndentBalanced(indent, open, close);
      NetAbsent(value.value, open, close);
      EmitBalanced(left, indent + 1, detach, open, close);
      assert Net("int ", open, close) + Net("() {\n", open, close) + Net("}\n", open, close) == 0 by {
        PieceCounts(open, close);
      }
      BlockTextBalanced(Indent(indent), "int ", value.value, "() {\n", Emit(left, indent + 1, detach), open, close);
    } else {
      assert Own(KindFuncDef, value, left, right, indent, detach) == [];
    }
  }

  lemma {:induction false} ReturnOwnBalanced(value: Option<string>, left: Tree, right: Tree, indent: int, detach: bool, open: char, close: char)
    requires BracketPair(open, close)
    requires NoCharInValues(left, open) && NoCharInValues(left, close)
    requires NoCharInValues(right, open) && NoCharInValues(right, close)
    ensures Net(Own(KindReturn, value, left, right, indent, detach), open, close) == 0
    decreases 1 + Size(left) + Size(right), 1
  {
    IndentBalanced(indent, open, close);
    var expr := if left.Node? then Emit(left, 0, detach) else "0";
    if left.Node? {
      EmitBalanced(left, 0, detach, open, close);
    } else {
      PieceCounts(open, close);
    }
    OwnReturn(value, left, right, indent, detach);
    ReturnTextBalanced(Indent(indent), expr, open, close);
  }

  /** The text of a `return` node. */
  lemma OwnReturn(value: Option<string>, left: Tree, right: Tree, indent: int, detach: bool)
    ensures Own(KindReturn, value, left, right, indent, detach)
      == Indent(indent) + "return " + (if left.Node? then Emit(left, 0, detach) else "0") + ";\n"
  {
  }

  lemma {:induction false} SeqOwnBalanced(value: Option<string>, left: Tree, right: Tree, indent: int, detach: bool, open: char, close: char)
    requires BracketPair(open, close)
    requires NoCharInValues(left, open) && NoCharInValues(left, close)
    requires NoCharInValues(right, open) && NoCharInValues(right, close)
    ensures Net(Own(KindSeq, value, left, right, indent, detach), open, close) == 0
    decreases 1 + Size(left) + Size(right), 1
  {
    EmitBalanced(left, indent, detach, open, close);
    EmitBalanced(right, indent, detach, open, close);
    NetConcat(Emit(left, indent, detach), Emit(right, indent, detach), open, close);
  }

  lemma {:induction false} ForOwnBalanced(value: Option<string>, left: Tree, right: Tree, indent: int, detach: bool, open: char, close: char)
    requires BracketPair(open, close)
    requires NoCharInValues(left, open) && NoCharInValues(left, close)
    requires NoCharInValues(right, open) && NoCharInValues(right, close)
    ensures Net(Own(KindFor, value, left, right, indent, detach), open, close) == 0
    decreases 1 + Size(left) + Size(right), 1
  {
    var update := if right.Node? then Header(right.next, detach) else "";
    var body := if right.Node? && right.next.Node? then Emit(right.next.next, indent + 1, detach) else "";
    IndentBalanced(indent, open, close);
    ForPartsBalanced(left, right, indent, detach, open, close);
    ForTextBalanced(Indent(indent), Emit(left, 0, detach), Header(right, detach), update, body, open, close);
  }

  /** The parts of a `for` statement: init, condition, update and body. */
  lemma {:induction false} ForPartsBalanced(left: Tree, right: Tree, indent: int, detach: bool, open: char, close: char)
    requires BracketPair(open, close)
    requires NoCharInValues(left, open) && NoCharInValues(left, close)
    requires NoCharInValues(right, open) && NoCharInValues(right, close)
    ensures Net(Emit(left, 0, detach), open, close) == 0 && Net(Header(right, detach), open, close) == 0
    ensures Net(if right.Node? then Header(right.next, detach) else "", open, close) == 0
    ensures Net(if right.Node? && right.next.Node? then Emit(right.next.next, indent + 1, detach) else "", open, close) == 0
    decreases 1 + Size(left) + Size(right), 0
  {
    EmitBalanced(left, 0, detach, open, close);
    HeaderBalanced(right, detach, open, close);
    if right.Node? {
      HeaderBalanced(right.next, detach, open, close);
      if right.next.Node? {
        EmitBalanced(right.next.next, indent + 1, detach, open, close);
      } else {
        assert Net("", open, close) == 0;
      }
    } else {
      assert Net("", open, close) == 0;
    }
  }

  lemma {:induction false} OperandBalanced(t: Tree, detach: bool, open: char, close: char)
    requires BracketPair(open, close) && NoCharInValues(t, open) && NoCharInValues(t, close)
    ensures Net(Operand(t, detach), open, close) == 0
    decreases Size(t), 4
  {
    if t.Node? {
      EmitBalanced(t, 0, detach, open, close);
      if t.kind == KindBinOp {
        ParenthesizedBalanced(Emit(t, 0, detach), open, close);
      }
    } else {
      assert Operand(t, detach) == [];
    }
  }

  lemma {:induction false} HeaderBalanced(t: Tree, detach: bool, open: char, close: char)
    requires BracketPair(open, close) && NoCharInValues(t, open) && NoCharInValues(t, close)
    ensures Net(Header(t, detach), open, close) == 0
    decreases Size(t), 4
  {
    if t.Node? {
      if detach {
        OwnBalanced(t.kind, t.value, t.left, t.right, 0, detach, open, close);
      } else {
        EmitBalanced(t, 0, detach, open, close);
      }
    } else {
      assert Header(t, detach) == [];
    }
  }
}
