/**
 * `DefaultDialect` and `Compiler` (src/relstorage/adapters/sql/dialect.py):
 * the dialect's layout flag and type names, and the compiler that writes a
 * statement into a text buffer while recording one placeholder per bind
 * parameter or literal in an insertion-ordered map, then turns the result
 * into a `PREPARE ... AS ...` / `EXECUTE ...` pair with `$n` parameters.
 *
 * Query-tree nodes live outside this file; where the compiler visits a child
 * node, the child's own visit is passed in as a function.
 */
module Dialect {
  import opened Base
  import opened Strings
  import Dict

  // ---------------------------------------------------------------- dialect

  /** The column types `datatype_map` knows, plus any other type a column might carry. */
  datatype ColumnType = OID | TID | BinaryString | State | Boolean | OtherType(name: string)

  /** `DefaultDialect`: the layout flag and the `repr` of the context it was bound to. */
  datatype DefaultDialect = DefaultDialect(keepHistory: bool, contextRepr: Option<string>)

  /** The class defaults: `keep_history = True`, no context. */
  const Unbound: DefaultDialect := DefaultDialect(true, None)

  /** What `bind` reads from a context: its layout flag and its `repr`. */
  datatype Context = Context(keepHistory: bool, repr: string)

  /** `bind(context)`: a copy that takes the context's layout flag and remembers the context. */
  function Bind(d: DefaultDialect, context: Context): (r: DefaultDialect)
    ensures r.keepHistory == context.keepHistory
    ensures r.contextRepr == Some(context.repr)
  {
    d.(keepHistory := context.keepHistory, contextRepr := Some(context.repr))
  }

  /** `__eq__`: two dialects are equal when they agree on the layout. */
  predicate DialectEq(a: DefaultDialect, b: DefaultDialect)
  {
    a.keepHistory == b.keepHistory
  }

  /** Dialect equality is an equivalence, and binding to one context makes any two dialects equal. */
  lemma DialectEqEquivalence(a: DefaultDialect, b: DefaultDialect, c: DefaultDialect, context: Context)
    ensures DialectEq(a, a)
    ensures DialectEq(a, b) ==> DialectEq(b, a)
    ensures DialectEq(a, b) && DialectEq(b, c) ==> DialectEq(a, c)
    ensures DialectEq(Bind(a, context), Bind(b, context))
    ensures DialectEq(Bind(a, context), a) <==> a.keepHistory == context.keepHistory
  {
  }

  /** `datatype_map[type(column.type_)]`; an unknown type raises `KeyError`. */
  function SqlTypeName(t: ColumnType): (r: Result<string>)
    ensures r.Failure? <==> t.OtherType?
    ensures r.Failure? ==> r.error == KeyError
  {
    match t
    case OID => Success("BIGINT")
    case TID => Success("BIGINT")
    case BinaryString => Success("BYTEA")
    case State => Success("BYTEA")
    case Boolean => Success("BOOLEAN")
    case OtherType(_) => Failure(KeyError)
  }

  /** `datatypes_for_columns`: one SQL type name per column, or `KeyError` at the first unknown type. */
  function DatatypesForColumns(columns: seq<ColumnType>): (r: Result<seq<string>>)
    ensures r.Failure? <==> exists i :: 0 <= i < |columns| && columns[i].OtherType?
    ensures r.Failure? ==> r.error == KeyError
    ensures r.Success? ==> |r.value| == |columns|
    ensures r.Success? ==> forall i :: 0 <= i < |columns| ==> SqlTypeName(columns[i]) == Success(r.value[i])
  {
    if |columns| == 0 then Success([])
    else
      match SqlTypeName(columns[0])
      case Failure(e) => Failure(e)
      case Success(t) =>
        match DatatypesForColumns(columns[1..])
        case Failure(e) =>
          var i :| 0 <= i < |columns[1..]| && columns[1..][i].OtherType?;
          assert columns[i + 1].OtherType?;
          Failure(e)
        case Success(ts) =>
          assert forall i :: 1 <= i < |columns| ==> columns[i] == columns[1..][i - 1];
          Success([t] + ts)
  }

  // ---------------------------------------------------------------- compiler state

  /** The keys of `Compiler.placeholders`: bind-parameter nodes (told apart by `id`) and literal values. */
  datatype PlaceholderKey =
    | BindParam(id: nat, key: string)
    | OrderedBindParam(id: nat)
    | LiteralValue(v: Value)

  /** `Compiler`: the text written so far and `{node or literal: placeholder name}` in insertion order. */
  datatype Compiler = Compiler(buf: string, placeholders: Dict.Dict<PlaceholderKey, string>)

  /** `Compiler(root)` before anything is visited. */
  const Fresh: Compiler := Compiler("", [])

  function Write(c: Compiler, text: string): Compiler
  {
    c.(buf := c.buf + text)
  }

  /** `emit(*contents)` */
  function Emit(c: Compiler, contents: seq<string>): (r: Compiler)
    ensures r.placeholders == c.placeholders
    ensures |r.buf| == |c.buf| + TotalLength(contents) && r.buf[..|c.buf|] == c.buf
    ensures r.buf == c.buf + Flatten(contents)
  {
    FlattenLength(contents);
    Write(c, Flatten(contents))
  }

  /** `emit` writes its contents one after the other: emitting `a + b` is emitting `a`, then `b`. */
  lemma EmitAppend(c: Compiler, a: seq<string>, b: seq<string>)
    ensures Emit(c, a + b) == Emit(Emit(c, a), b)
  {
    FlattenAppend(a, b);
  }

  /** `emit_null` */
  function EmitNull(c: Compiler): (r: Compiler)
    ensures r == c.(buf := c.buf + "NULL")
  {
    Write(c, "NULL")
  }

  /**
   * `emit_w_padding_space` (also `emit_keyword`): exactly one space before the
   * stripped value unless the buffer already ends with one, and one after.
   */
  function EmitWPaddingSpace(c: Compiler, value: string): (r: Compiler)
    ensures r.placeholders == c.placeholders
    ensures |c.buf| > 0 && c.buf[|c.buf| - 1] == ' ' ==> r.buf == c.buf + Strip(value) + " "
    ensures !(|c.buf| > 0 && c.buf[|c.buf| - 1] == ' ') ==> r.buf == c.buf + " " + Strip(value) + " "
  {
    var endedInSpace := |c.buf| > 0 && c.buf[|c.buf| - 1] == ' ';
    var padded := if endedInSpace then c else Write(c, " ");
    Write(Write(padded, Strip(value)), " ")
  }

  /** `emit_keyword` is `emit_w_padding_space`. */
  function EmitKeyword(c: Compiler, keyword: string): (r: Compiler)
    ensures r.placeholders == c.placeholders
    ensures |c.buf| > 0 && c.buf[|c.buf| - 1] == ' ' ==> r.buf == c.buf + Strip(keyword) + " "
    ensures !(|c.buf| > 0 && c.buf[|c.buf| - 1] == ' ') ==> r.buf == c.buf + " " + Strip(keyword) + " "
  {
    EmitWPaddingSpace(c, keyword)
  }

  /** `emit_identifier`: a separating space unless the buffer ends in `(` or a space; an empty buffer raises `IndexError`. */
  function EmitIdentifier(c: Compiler, identifier: string): (r: Result<Compiler>)
    ensures r.Failure? <==> |c.buf| == 0
    ensures r.Failure? ==> r.error == IndexError
    ensures r.Success? ==> r.value.placeholders == c.placeholders
    ensures r.Success? && c.buf[|c.buf| - 1] in {'(', ' '} ==> r.value.buf == c.buf + identifier
    ensures r.Success? && c.buf[|c.buf| - 1] !in {'(', ' '} ==> r.value.buf == c.buf + " " + identifier
  {
    if |c.buf| == 0 then Failure(IndexError)
    else if c.buf[|c.buf| - 1] !in {'(', ' '} then Success(Write(Write(c, " "), identifier))
    else Success(Write(c, identifier))
  }

  /** `visit_column`: the column's name as an identifier. */
  function VisitColumn(c: Compiler, name: string): (r: Result<Compiler>)
    ensures r.Failure? <==> |c.buf| == 0
    ensures r.Failure? ==> r.error == IndexError
    ensures r.Success? ==> r.value.placeholders == c.placeholders
    ensures r.Success? && c.buf[|c.buf| - 1] in {'(', ' '} ==> r.value.buf == c.buf + name
    ensures r.Success? && c.buf[|c.buf| - 1] !in {'(', ' '} ==> r.value.buf == c.buf + " " + name
  {
    EmitIdentifier(c, name)
  }

  /** `visit_op`: the operator with a space on each side. */
  function VisitOp(c: Compiler, op: string): (r: Compiler)
    ensures r == c.(buf := c.buf + " " + op + " ")
  {
    Write(c, " " + op + " ")
  }

  /** `visit_boolean_literal_expression`: `TRUE` or `FALSE`, never a parameter. */
  function VisitBooleanLiteral(c: Compiler, value: bool): (r: Compiler)
    ensures r.placeholders == c.placeholders
    ensures r.buf == c.buf + (if value then "TRUE" else "FALSE")
  {
    Write(c, if value then "TRUE" else "FALSE")
  }

  /** `visit_grouped`: the child in parentheses. */
  function VisitGrouped<N>(c: Compiler, clause: N, visit: (Compiler, N) -> Compiler): (r: Compiler)
  {
    Write(visit(Write(c, "("), clause), ")")
  }

  /** `visit_from`: the `FROM` keyword, then the child. */
  function VisitFrom<N>(c: Compiler, from: N, visit: (Compiler, N) -> Compiler): (r: Compiler)
  {
    visit(EmitKeyword(c, "FROM"), from)
  }

  /**
   * `visit_csv` (and `visit_select_list_csv`, whose per-item visit is the same
   * `visit`): the children separated by `, `; an empty list raises `IndexError`.
   */
  function VisitCsv<N>(c: Compiler, nodes: seq<N>, visit: (Compiler, N) -> Compiler): (r: Result<Compiler>)
    ensures r.Failure? <==> |nodes| == 0
    ensures r.Failure? ==> r.error == IndexError
  {
    if |nodes| == 0 then Failure(IndexError)
    else Success(VisitRest(visit(c, nodes[0]), nodes[1..], visit))
  }

  function VisitRest<N>(c: Compiler, nodes: seq<N>, visit: (Compiler, N) -> Compiler): Compiler
    decreases |nodes|
  {
    if |nodes| == 0 then c else VisitRest(visit(Write(c, ", "), nodes[0]), nodes[1..], visit)
  }

  /** A visit that only writes a fixed text for each node. */
  ghost predicate WritesText<N(!new)>(visit: (Compiler, N) -> Compiler, text: N -> string)
  {
    forall c: Compiler, n: N :: visit(c, n) == c.(buf := c.buf + text(n))
  }

  function Texts<N>(nodes: seq<N>, text: N -> string): (r: seq<string>)
    ensures |r| == |nodes| && forall i :: 0 <= i < |nodes| ==> r[i] == text(nodes[i])
  {
    seq(|nodes|, i requires 0 <= i < |nodes| => text(nodes[i]))
  }

  /** Each text with the separator in front of it. */
  function Prefixed(sep: string, xs: seq<string>): (r: seq<string>)
    ensures |r| == |xs| && forall i :: 0 <= i < |xs| ==> r[i] == sep + xs[i]
  {
    seq(|xs|, i requires 0 <= i < |xs| => sep + xs[i])
  }

  /** The separator-prefixed texts of a non-empty list start with the first node's. */
  lemma PrefixedTextsCons<N>(nodes: seq<N>, text: N -> string)
    requires |nodes| > 0
    ensures Flatten(Prefixed(", ", Texts(nodes, text)))
         == ", " + text(nodes[0]) + Flatten(Prefixed(", ", Texts(nodes[1..], text)))
  {
    var xs := Prefixed(", ", Texts(nodes, text));
    assert xs[1..] == Prefixed(", ", Texts(nodes[1..], text));
    assert Flatten(xs) == xs[0] + Flatten(xs[1..]);
  }

  lemma {:induction false} VisitRestWrites<N(!new)>(c: Compiler, nodes: seq<N>, visit: (Compiler, N) -> Compiler, text: N -> string)
    requires WritesText(visit, text)
    ensures VisitRest(c, nodes, visit) == c.(buf := c.buf + Flatten(Prefixed(", ", Texts(nodes, text))))
    decreases |nodes|
  {
    if |nodes| > 0 {
      var c1 := visit(Write(c, ", "), nodes[0]);
      var head := ", " + text(nodes[0]);
      var rest := Flatten(Prefixed(", ", Texts(nodes[1..], text)));
      assert c1 == c.(buf := c.buf + head);
      VisitRestWrites(c1, nodes[1..], visit, text);
      PrefixedTextsCons(nodes, text);
      assert c.buf + head + rest == c.buf + (head + rest);
    } else {
      assert Prefixed(", ", Texts(nodes, text)) == [];
    }
  }

  /** `Join` written as the head followed by separator-prefixed items. */
  lemma {:induction false} JoinAsPrefixed(sep: string, xs: seq<string>)
    requires |xs| >= 1
    ensures Join(sep, xs) == xs[0] + Flatten(Prefixed(sep, xs[1..]))
  {
    if |xs| > 1 {
      JoinAsPrefixed(sep, xs[1..]);
      assert xs[1..][1..] == xs[2..];
      assert Prefixed(sep, xs[1..]) == [sep + xs[1]] + Prefixed(sep, xs[2..]);
    } else {
      assert Prefixed(sep, xs[1..]) == [];
    }
  }

  /** With children that each write a fixed text, `visit_csv` writes the texts joined by `, `. */
  lemma VisitCsvJoins<N(!new)>(c: Compiler, nodes: seq<N>, visit: (Compiler, N) -> Compiler, text: N -> string)
    requires WritesText(visit, text) && |nodes| >= 1
    ensures VisitCsv(c, nodes, visit) == Success(c.(buf := c.buf + Join(", ", Texts(nodes, text))))
  {
    var c0 := visit(c, nodes[0]);
    assert c0 == c.(buf := c.buf + text(nodes[0]));
    VisitRestWrites(c0, nodes[1..], visit, text);
    JoinTexts(nodes, text);
    var tail := Flatten(Prefixed(", ", Texts(nodes[1..], text)));
    assert c.buf + text(nodes[0]) + tail == c.buf + (text(nodes[0]) + tail);
  }

  /** The joined texts are the first node's text followed by the others', each after `, `. */
  lemma JoinTexts<N>(nodes: seq<N>, text: N -> string)
    requires |nodes| >= 1
    ensures Join(", ", Texts(nodes, text)) == text(nodes[0]) + Flatten(Prefixed(", ", Texts(nodes[1..], text)))
  {
    var xs := Texts(nodes, text);
    JoinAsPrefixed(", ", xs);
    assert xs[1..] == Texts(nodes[1..], text);
  }

  // ---------------------------------------------------------------- placeholders

  /** `_placeholder(key)`: `%s` stays as it is; any other name is written in pyformat style. */
  function PlaceholderText(key: string): (r: string)
    ensures |r| >= 2 && r[0] == '%'
  {
    if key == "%s" then key else "%(" + key + ")s"
  }

  /** Reads a placeholder back: `%s`, or the name inside `%(...)s`. */
  function ParsePlaceholder(text: string): Option<string>
  {
    if text == "%s" then Some("%s")
    else if |text| >= 4 && text[..2] == "%(" && text[|text| - 2..] == ")s" then Some(text[2..|text| - 2])
    else None
  }

  /** Every placeholder reads back as the key it was written for. */
  lemma PlaceholderRoundTrip(key: string)
    ensures ParsePlaceholder(PlaceholderText(key)) == Some(key)
  {
    if key != "%s" {
      var t := "%(" + key + ")s";
      assert t[..2] == "%(" && t[|t| - 2..] == ")s" && t[2..|t| - 2] == key;
    }
  }

  /** `_next_placeholder_name(prefix)`: the prefix and the number of placeholders so far. */
  function NextPlaceholderName(c: Compiler, prefix: string): string
  {
    prefix + "_" + NatToString(|c.placeholders|)
  }

  /** The name `_placeholder_for_literal_param_value` gives the `i`-th registered placeholder. */
  function LiteralName(i: nat): string
  {
    "literal_" + NatToString(i)
  }

  /** Every literal entry is named after its own position in the placeholder map. */
  ghost predicate LiteralsNamedByPosition(c: Compiler)
  {
    forall i :: 0 <= i < |c.placeholders| && c.placeholders[i].0.LiteralValue? ==>
      c.placeholders[i].1 == LiteralName(i)
  }

  /**
   * `_placeholder_for_literal_param_value`, as written: a literal seen before
   * returns its stored bare name; a new one is registered under
   * `literal_<n>` and returns that name in placeholder form.
   */
  function PlaceholderForLiteral(c: Compiler, value: Value): (r: (Compiler, string))
    ensures Dict.Get(r.0.placeholders, LiteralValue(value)).Some?
    ensures r.0.buf == c.buf
  {
    match Dict.Get(c.placeholders, LiteralValue(value))
    case Some(name) =>
      if name != "" then (c, name)
      else
        var newName := NextPlaceholderName(c, "literal");
        (c.(placeholders := Dict.Put(c.placeholders, LiteralValue(value), newName)), PlaceholderText(newName))
    case None =>
      var newName := NextPlaceholderName(c, "literal");
      (c.(placeholders := Dict.Put(c.placeholders, LiteralValue(value), newName)), PlaceholderText(newName))
  }

  /** A literal seen before is looked up, and its stored name is never empty. */
  lemma LiteralLookup(c: Compiler, value: Value)
    requires LiteralsNamedByPosition(c)
    requires Dict.Get(c.placeholders, LiteralValue(value)).Some?
    ensures Dict.Get(c.placeholders, LiteralValue(value)).value != ""
    ensures PlaceholderForLiteral(c, value) == (c, Dict.Get(c.placeholders, LiteralValue(value)).value)
  {
    var i := Dict.IndexOf(c.placeholders, LiteralValue(value)).value;
    assert c.placeholders[i].0 == LiteralValue(value);
    assert Dict.Get(c.placeholders, LiteralValue(value)).value == LiteralName(i);
  }

  /** A new literal is appended under the name of its position. */
  lemma LiteralRegister(c: Compiler, value: Value)
    requires LiteralsNamedByPosition(c)
    requires Dict.Get(c.placeholders, LiteralValue(value)).None?
    ensures PlaceholderForLiteral(c, value).0.placeholders == c.placeholders + [(LiteralValue(value), LiteralName(|c.placeholders|))]
    ensures PlaceholderForLiteral(c, value).0.buf == c.buf
    ensures PlaceholderForLiteral(c, value).1 == PlaceholderText(LiteralName(|c.placeholders|))
    ensures LiteralsNamedByPosition(PlaceholderForLiteral(c, value).0)
  {
    assert NextPlaceholderName(c, "literal") == LiteralName(|c.placeholders|);
  }

  lemma LiteralCases(c: Compiler, value: Value)
    requires LiteralsNamedByPosition(c)
    ensures Dict.Get(c.placeholders, LiteralValue(value)).Some? ==>
              PlaceholderForLiteral(c, value) == (c, Dict.Get(c.placeholders, LiteralValue(value)).value)
    ensures Dict.Get(c.placeholders, LiteralValue(value)).None? ==>
              && PlaceholderForLiteral(c, value).0.placeholders == c.placeholders + [(LiteralValue(value), LiteralName(|c.placeholders|))]
              && PlaceholderForLiteral(c, value).0.buf == c.buf
              && PlaceholderForLiteral(c, value).1 == PlaceholderText(LiteralName(|c.placeholders|))
              && LiteralsNamedByPosition(PlaceholderForLiteral(c, value).0)
  {
    if Dict.Get(c.placeholders, LiteralValue(value)).Some? {
      LiteralLookup(c, value);
    } else {
      LiteralRegister(c, value);
    }
  }

  /** `visit_literal_expression`, as written. */
  function VisitLiteral(c: Compiler, value: Value): (r: Compiler)
    requires LiteralsNamedByPosition(c)
    ensures LiteralsNamedByPosition(r)
    ensures Dict.Get(c.placeholders, LiteralValue(value)).None? ==>
              && r.placeholders == c.placeholders + [(LiteralValue(value), LiteralName(|c.placeholders|))]
              && r.buf == c.buf + PlaceholderText(LiteralName(|c.placeholders|))
    ensures Dict.Get(c.placeholders, LiteralValue(value)).Some? ==>
              r == c.(buf := c.buf + Dict.Get(c.placeholders, LiteralValue(value)).value)
  {
    LiteralCases(c, value);
    var (c1, placeholder) := PlaceholderForLiteral(c, value);
    Write(c1, placeholder)
  }

  /** `visit_literal_expression` as evidently intended: the placeholder form on every visit. */
  function VisitLiteralIntended(c: Compiler, value: Value): (r: Compiler)
    requires LiteralsNamedByPosition(c)
    ensures LiteralsNamedByPosition(r)
    ensures Dict.Get(r.placeholders, LiteralValue(value)).Some?
    ensures r.buf == c.buf + PlaceholderText(Dict.Get(r.placeholders, LiteralValue(value)).value)
    ensures Dict.Get(c.placeholders, LiteralValue(value)).Some? ==> r.placeholders == c.placeholders
    ensures Dict.Get(c.placeholders, LiteralValue(value)).None? ==>
              r.placeholders == c.placeholders + [(LiteralValue(value), LiteralName(|c.placeholders|))]
  {
    LiteralCases(c, value);
    var (c1, _) := PlaceholderForLiteral(c, value);
    Write(c1, PlaceholderText(Dict.Get(c1.placeholders, LiteralValue(value)).value))
  }

  /** Distinct positions give distinct literal names. */
  lemma LiteralNamesDistinct(i: nat, j: nat)
    requires i != j
    ensures LiteralName(i) != LiteralName(j)
  {
    if LiteralName(i) == LiteralName(j) {
      assert NatToString(i) == LiteralName(i)[8..] && NatToString(j) == LiteralName(j)[8..];
      NatToStringInjective(i, j);
    }
  }

  lemma FirstLiteralName()
    ensures LiteralName(0) == "literal_0"
    ensures PlaceholderText(LiteralName(0)) == "%(literal_0)s"
  {
    assert DigitChar(0) == '0';
    assert NatToString(0) == "0";
  }

  /** The entry of the first literal is found under its value. */
  lemma FirstLiteralLookup(value: Value)
    ensures Dict.Get([(LiteralValue(value), LiteralName(0))], LiteralValue(value)) == Some(LiteralName(0))
  {
    var ps := [(LiteralValue(value), LiteralName(0))];
    assert ps[0].0 == LiteralValue(value);
  }

  /** The first literal on a fresh compiler is registered as `literal_0` and written in placeholder form. */
  lemma FirstLiteralVisit(value: Value)
    ensures VisitLiteral(Fresh, value) == Compiler(PlaceholderText(LiteralName(0)), [(LiteralValue(value), LiteralName(0))])
  {
    assert LiteralsNamedByPosition(Fresh);
    assert [] + [(LiteralValue(value), LiteralName(0))] == [(LiteralValue(value), LiteralName(0))];
    assert "" + PlaceholderText(LiteralName(0)) == PlaceholderText(LiteralName(0));
  }

  /** The corrected visit treats the first literal the same way. */
  lemma FirstLiteralVisitIntended(value: Value)
    ensures VisitLiteralIntended(Fresh, value) == Compiler(PlaceholderText(LiteralName(0)), [(LiteralValue(value), LiteralName(0))])
  {
    assert LiteralsNamedByPosition(Fresh);
    assert [] + [(LiteralValue(value), LiteralName(0))] == [(LiteralValue(value), LiteralName(0))];
    FirstLiteralLookup(value);
    assert "" + PlaceholderText(LiteralName(0)) == PlaceholderText(LiteralName(0));
  }

  /** Two visits of one literal on a fresh compiler register it once, as `literal_0`. */
  lemma LiteralVisitedTwice(value: Value)
    ensures var c1 := VisitLiteral(Fresh, value);
            && c1.placeholders == [(LiteralValue(value), LiteralName(0))]
            && c1.buf == PlaceholderText(LiteralName(0))
            && VisitLiteral(c1, value).buf == c1.buf + LiteralName(0)
  {
    FirstLiteralVisit(value);
    FirstLiteralLookup(value);
  }

  /** The same two visits as intended. */
  lemma LiteralVisitedTwiceIntended(value: Value)
    ensures var c1 := VisitLiteralIntended(Fresh, value);
            && c1.placeholders == [(LiteralValue(value), LiteralName(0))]
            && c1.buf == PlaceholderText(LiteralName(0))
            && VisitLiteralIntended(c1, value).buf == c1.buf + PlaceholderText(LiteralName(0))
  {
    FirstLiteralVisitIntended(value);
    FirstLiteralLookup(value);
  }

  /**
   * The quirk: visiting the same literal twice writes `%(literal_0)s` and then
   * the bare name `literal_0`, which does not read back as a placeholder.
   */
  lemma RepeatedLiteralWritesBareName(value: Value)
    ensures VisitLiteral(VisitLiteral(Fresh, value), value).buf == PlaceholderText(LiteralName(0)) + LiteralName(0)
    ensures ParsePlaceholder(LiteralName(0)) == None
  {
    LiteralVisitedTwice(value);
    var name := LiteralName(0);
    assert name[0] == 'l';
    assert name != "%s" && name[..2] != "%(";
  }

  /** As intended, the repeated literal is written as the same placeholder both times. */
  lemma RepeatedLiteralIntended(value: Value)
    ensures VisitLiteralIntended(VisitLiteralIntended(Fresh, value), value).buf
         == PlaceholderText(LiteralName(0)) + PlaceholderText(LiteralName(0))
    ensures ParsePlaceholder(PlaceholderText(LiteralName(0))) == Some(LiteralName(0))
  {
    LiteralVisitedTwiceIntended(value);
    PlaceholderRoundTrip(LiteralName(0));
  }

  /** `visit_bind_param`: register the node under its key and write the key's placeholder. */
  function VisitBindParam(c: Compiler, id: nat, key: string): (r: Compiler)
    requires LiteralsNamedByPosition(c)
    ensures LiteralsNamedByPosition(r)
    ensures Dict.Get(r.placeholders, BindParam(id, key)) == Some(key)
    ensures forall k :: k != BindParam(id, key) ==> Dict.Get(r.placeholders, k) == Dict.Get(c.placeholders, k)
    ensures r.buf == c.buf + PlaceholderText(key)
  {
    var ps := Dict.Put(c.placeholders, BindParam(id, key), key);
    PutKeepsLiteralNames(c, BindParam(id, key), key);
    Write(c.(placeholders := ps), PlaceholderText(key))
  }

  /** `visit_ordered_bind_param`: register the node as a positional `%s` and write `%s`. */
  function VisitOrderedBindParam(c: Compiler, id: nat): (r: Compiler)
    requires LiteralsNamedByPosition(c)
    ensures LiteralsNamedByPosition(r)
    ensures Dict.Get(r.placeholders, OrderedBindParam(id)) == Some("%s")
    ensures forall k :: k != OrderedBindParam(id) ==> Dict.Get(r.placeholders, k) == Dict.Get(c.placeholders, k)
    ensures r.buf == c.buf + "%s"
  {
    var ps := Dict.Put(c.placeholders, OrderedBindParam(id), "%s");
    PutKeepsLiteralNames(c, OrderedBindParam(id), "%s");
    Write(c.(placeholders := ps), "%s")
  }

  /** Registering a bind parameter leaves every literal at its position. */
  lemma PutKeepsLiteralNames(c: Compiler, k: PlaceholderKey, name: string)
    requires LiteralsNamedByPosition(c) && !k.LiteralValue?
    ensures LiteralsNamedByPosition(c.(placeholders := Dict.Put(c.placeholders, k, name)))
  {
    var ps := Dict.Put(c.placeholders, k, name);
    forall i | 0 <= i < |ps| && ps[i].0.LiteralValue?
      ensures ps[i].1 == LiteralName(i)
    {
      match Dict.IndexOf(c.placeholders, k)
      case Some(j) =>
        assert ps == c.placeholders[j := (k, name)];
      case None =>
        assert ps == c.placeholders + [(k, name)];
    }
  }

  // ---------------------------------------------------------------- finalize

  /** `finalize`: the stripped text and the map from placeholder name back to node or literal. */
  function Finalize(c: Compiler): (r: (string, Dict.Dict<string, PlaceholderKey>))
    ensures Trimmed(r.0) && |r.0| <= |c.buf|
    ensures exists a, b :: AllSpace(a) && AllSpace(b) && c.buf == a + r.0 + b
    ensures forall name :: name in Dict.Keys(r.1) <==> name in Dict.Values(c.placeholders)
    ensures forall i :: 0 <= i < |c.placeholders| && Dict.LastWithValue(c.placeholders, i) ==>
              Dict.Get(r.1, c.placeholders[i].1) == Some(c.placeholders[i].0)
  {
    StripSlice(c.buf);
    Dict.InvertGetAll(c.placeholders);
    (Strip(c.buf), Dict.Invert(c.placeholders))
  }

  /** The text `finalize` returns is the one trimmed text that white space around it turns into the buffer. */
  lemma FinalizeText(c: Compiler, a: string, m: string, b: string)
    requires AllSpace(a) && AllSpace(b) && Trimmed(m) && c.buf == a + m + b
    ensures Finalize(c).0 == m
  {
    StripOf(a, m, b);
  }

  /** When every placeholder has its own name, the map `finalize` returns inverts back to the compiler's map. */
  lemma FinalizeInverts(c: Compiler)
    requires Dict.DistinctValues(c.placeholders)
    ensures Dict.Invert(Finalize(c).1) == c.placeholders
    ensures Strip(Finalize(c).0) == Finalize(c).0
  {
    Dict.InvertInvolution(c.placeholders);
    StripIdempotent(c.buf);
  }

  /** A compiler that has only seen literals has distinct placeholder names. */
  lemma LiteralOnlyNamesDistinct(c: Compiler)
    requires LiteralsNamedByPosition(c)
    requires forall i :: 0 <= i < |c.placeholders| ==> c.placeholders[i].0.LiteralValue?
    ensures Dict.DistinctValues(c.placeholders)
  {
    forall i, j | 0 <= i < j < |c.placeholders|
      ensures c.placeholders[i].1 != c.placeholders[j].1
    {
      LiteralNamesDistinct(i, j);
    }
  }

  // ---------------------------------------------------------------- prepare

  /** `_prepared_param(n)` */
  function Dollar(n: nat): (r: string)
    ensures '%' !in r
  {
    assert forall i :: 0 <= i < |NatToString(n)| ==> IsDigit(NatToString(n)[i]);
    "$" + NatToString(n)
  }

  /** `$1, ..., $n` */
  function Dollars(n: nat): (r: seq<string>)
    ensures |r| == n && forall i :: 0 <= i < n ==> r[i] == Dollar(i + 1)
  {
    seq(n, i requires 0 <= i < n => Dollar(i + 1))
  }

  /** The text half of `prepare`'s loop: the i-th placeholder (1-based) has its first occurrence replaced by `$i`. */
  function RenumberText(q: string, names: seq<string>): string
  {
    if |names| == 0 then q
    else
      var n: nat := |names|;
      ReplaceFirst(RenumberText(q, names[..n - 1]), PlaceholderText(names[n - 1]), Dollar(n))
  }

  /** The dict half of `prepare`'s loop: `placeholder_to_number[name] = i` for the i-th name. */
  function Numbering(names: seq<string>): Dict.Dict<string, nat>
  {
    if |names| == 0 then []
    else
      var n: nat := |names|;
      Dict.Put<string, nat>(Numbering(names[..n - 1]), names[n - 1], n)
  }

  /** `placeholder_to_number` has exactly the placeholder names as keys. */
  lemma {:induction false} NumberingKeys(names: seq<string>)
    ensures forall name :: name in Dict.Keys(Numbering(names)) <==> name in names
  {
    if |names| > 0 {
      var n := |names|;
      var init := names[..n - 1];
      NumberingKeys(init);
      assert names == init + [names[n - 1]];
    }
  }

  /** How a prepared statement's parameters are produced from the caller's. */
  datatype Converter =
    | Identity                                   // positional `%s` parameters pass through
    | ByName(numbers: Dict.Dict<string, nat>)    // named parameters go to their 1-based slot

  /** The three things `prepare` returns. */
  datatype Prepared = Prepared(stmt: string, execute: string, convert: Converter)

  /** `' (%s)' % ', '.join(datatypes)`, or nothing for no datatypes. */
  function DatatypesClause(datatypes: seq<string>): string
  {
    if |datatypes| == 0 then "" else " (" + Join(", ", datatypes) + ")"
  }

  /** `EXECUTE name(%s,...)` with one `%s` per placeholder, or `EXECUTE name` without parentheses. */
  function ExecuteText(name: string, placeholderCount: nat): (r: string)
    ensures placeholderCount == 0 ==> r == "EXECUTE " + name
    ensures placeholderCount > 0 ==> r == "EXECUTE " + name + "(" + Join(",", Repeat("%s", placeholderCount)) + ")"
  {
    if placeholderCount == 0 then "EXECUTE " + name
    else "EXECUTE " + name + "(" + Join(",", Repeat("%s", placeholderCount)) + ")"
  }

  /**
   * `prepare`, for a statement `name` (chosen by the caller) whose parameter
   * types are `datatypes`: an ordered `%s` placeholder must be the only
   * distinct placeholder name, or `AssertionError`.
   */
  function Prepare(c: Compiler, name: string, datatypes: seq<string>): (r: Result<Prepared>)
    ensures r.Failure? <==> "%s" in Dict.Values(c.placeholders) && |Numbering(Dict.Values(c.placeholders))| != 1
    ensures r.Failure? ==> r.error == AssertionError
    ensures r.Success? ==>
              r.value.stmt == "PREPARE " + name + DatatypesClause(datatypes) + " AS " + RenumberText(Strip(c.buf), Dict.Values(c.placeholders))
    ensures r.Success? ==> r.value.execute == ExecuteText(name, |c.placeholders|)
    ensures r.Success? ==> (r.value.convert.Identity? <==> "%s" in Dict.Values(c.placeholders))
    ensures r.Success? && "%s" !in Dict.Values(c.placeholders) ==> r.value.convert == ByName(Numbering(Dict.Values(c.placeholders)))
  {
    var names := Dict.Values(c.placeholders);
    var numbers := Numbering(names);
    NumberingKeys(names);
    var stmt := "PREPARE " + name + DatatypesClause(datatypes) + " AS " + RenumberText(Strip(c.buf), names);
    assert |numbers| > 0 <==> |names| > 0 by {
      if |names| > 0 { assert names[0] in names; }
      if |numbers| > 0 { assert Dict.Keys(numbers)[0] in Dict.Keys(numbers); }
    }
    var execute := ExecuteText(name, if |numbers| > 0 then |c.placeholders| else 0);
    if "%s" in Dict.Keys(numbers) then
      if |numbers| != 1 then Failure(AssertionError)
      else Success(Prepared(stmt, execute, Identity))
    else Success(Prepared(stmt, execute, ByName(numbers)))
  }

  /** The caller's parameters: a sequence for `%s` statements, a dict for named ones. */
  datatype Params = Positional(items: seq<Value>) | Named(byName: map<string, Value>)

  /** Python's `params[ix - 1] = value`, including the negative index `ix = 0` would give. */
  function Assign(params: seq<Value>, ix: nat, value: Value): (r: Result<seq<Value>>)
    ensures r.Failure? <==> |params| == 0 || ix > |params|
    ensures r.Success? ==> |r.value| == |params|
  {
    if |params| == 0 || ix > |params| then Failure(IndexError)
    else if ix == 0 then Success(params[|params| - 1 := value])
    else Success(params[ix - 1 := value])
  }

  /** The loop of the named `convert`, over `placeholder_to_number.items()` in order. */
  function Fill(items: seq<(string, nat)>, d: map<string, Value>, params: seq<Value>): (r: Result<seq<Value>>)
    ensures r.Success? ==> |r.value| == |params|
    ensures r.Success? ==> forall i :: 0 <= i < |items| ==> items[i].0 in d
  {
    if |items| == 0 then Success(params)
    else if items[0].0 !in d then Failure(KeyError)
    else
      match Assign(params, items[0].1, d[items[0].0])
      case Failure(e) => Failure(e)
      case Success(p) =>
        var rest := Fill(items[1..], d, p);
        assert rest.Success? ==> forall i :: 1 <= i < |items| ==> items[i] == items[1..][i - 1];
        rest
  }

  /** `convert(params)`, as written. */
  function Convert(conv: Converter, p: Params): (r: Result<Params>)
    requires conv.ByName? ==> p.Named?
    ensures conv.Identity? ==> r == Success(p)
    ensures conv.ByName? && r.Success? ==> r.value.Positional? && |r.value.items| == |conv.numbers|
  {
    match conv
    case Identity => Success(p)
    case ByName(numbers) =>
      match Fill(numbers, p.byName, Repeat(SqlNull, |numbers|))
      case Failure(e) => Failure(e)
      case Success(ps) => Success(Positional(ps))
  }

  /** `convert` as evidently intended: one value per `$i` slot, looked up by that slot's name. */
  function ConvertIntended(names: seq<string>, d: map<string, Value>): (r: Result<seq<Value>>)
    ensures r.Failure? <==> exists i :: 0 <= i < |names| && names[i] !in d
    ensures r.Failure? ==> r.error == KeyError
    ensures r.Success? ==> |r.value| == |names| && forall i :: 0 <= i < |names| ==> r.value[i] == d[names[i]]
  {
    if forall i :: 0 <= i < |names| ==> names[i] in d then
      Success(seq(|names|, i requires 0 <= i < |names| => d[names[i]]))
    else Failure(KeyError)
  }

  // ---------------------------------------------------------------- prepare properties

  /** `$i` with `i` as a decimal reads back as `i`. */
  lemma DollarRoundTrip(n: nat)
    ensures Dollar(n)[0] == '$'
    ensures forall i :: 1 <= i < |Dollar(n)| ==> IsDigit(Dollar(n)[i])
    ensures DecimalValue(Dollar(n)[1..]) == n
  {
    assert Dollar(n)[1..] == NatToString(n);
    DecimalRoundTrip(n);
  }

  /** `s0 t0 s1 t1 ... s(n-1) t(n-1) sn`: text segments with a token between each two. */
  function Interleave(segments: seq<string>, tokens: seq<string>): string
    requires |segments| == |tokens| + 1
  {
    if |tokens| == 0 then segments[0]
    else segments[0] + tokens[0] + Interleave(segments[1..], tokens[1..])
  }

  lemma {:induction false} InterleaveSplit(segments: seq<string>, tokens: seq<string>, n: nat)
    requires |segments| == |tokens| + 1 && n < |tokens|
    ensures Interleave(segments, tokens)
         == Interleave(segments[..n + 1], tokens[..n]) + tokens[n] + Interleave(segments[n + 1..], tokens[n + 1..])
  {
    if n > 0 {
      InterleaveSplit(segments[1..], tokens[1..], n - 1);
      assert segments[1..][..n] == segments[1..n + 1];
      assert segments[..n + 1][1..] == segments[1..n + 1];
      assert tokens[..n][1..] == tokens[1..][..n - 1];
      assert segments[1..][n..] == segments[n + 1..];
      assert tokens[1..][n..] == tokens[n + 1..];
    } else {
      assert segments[..1] == [segments[0]];
      assert segments[1..] == segments[n + 1..];
    }
  }

  lemma {:induction false} InterleaveWithoutPercent(segments: seq<string>, tokens: seq<string>)
    requires |segments| == |tokens| + 1
    requires forall i :: 0 <= i < |segments| ==> '%' !in segments[i]
    requires forall i :: 0 <= i < |tokens| ==> '%' !in tokens[i]
    ensures '%' !in Interleave(segments, tokens)
  {
    if |tokens| > 0 {
      InterleaveWithoutPercent(segments[1..], tokens[1..]);
    }
  }

  function PlaceholderTexts(names: seq<string>): (r: seq<string>)
    ensures |r| == |names| && forall i :: 0 <= i < |names| ==> r[i] == PlaceholderText(names[i])
  {
    seq(|names|, i requires 0 <= i < |names| => PlaceholderText(names[i]))
  }

  /**
   * After the first `n` names are processed, the first `n` placeholders of a
   * text whose fixed parts contain no `%` have become `$1 ... $n` and the rest
   * are untouched; this holds even when two placeholders share a name.
   */
  lemma {:induction false} RenumberPrefix(segments: seq<string>, names: seq<string>, n: nat)
    requires |segments| == |names| + 1 && n <= |names|
    requires forall i :: 0 <= i < |segments| ==> '%' !in segments[i]
    ensures RenumberText(Interleave(segments, PlaceholderTexts(names)), names[..n])
         == Interleave(segments, Dollars(n) + PlaceholderTexts(names)[n..])
  {
    var q := Interleave(segments, PlaceholderTexts(names));
    if n == 0 {
      assert Dollars(0) + PlaceholderTexts(names)[0..] == PlaceholderTexts(names);
      assert names[..0] == [];
    } else {
      RenumberPrefix(segments, names, n - 1);
      RenumberStep(q, names, n);
      ReplaceNextPlaceholder(segments, names, n);
    }
  }

  /** Numbering the first `n` names is numbering the first `n - 1` and then replacing the n-th name's placeholder by `$n`. */
  lemma RenumberStep(q: string, names: seq<string>, n: nat)
    requires 1 <= n <= |names|
    ensures RenumberText(q, names[..n])
         == ReplaceFirst(RenumberText(q, names[..n - 1]), PlaceholderText(names[n - 1]), Dollar(n))
  {
    assert names[..n][..n - 1] == names[..n - 1];
  }

  /** The n-th placeholder is the first `%` left once the ones before it are numbered. */
  lemma ReplaceNextPlaceholder(segments: seq<string>, names: seq<string>, n: nat)
    requires |segments| == |names| + 1 && 1 <= n <= |names|
    requires forall i :: 0 <= i < |segments| ==> '%' !in segments[i]
    ensures ReplaceFirst(Interleave(segments, Dollars(n - 1) + PlaceholderTexts(names)[n - 1..]), PlaceholderText(names[n - 1]), Dollar(n))
         == Interleave(segments, Dollars(n) + PlaceholderTexts(names)[n..])
  {
    var texts := PlaceholderTexts(names);
    var toks := Dollars(n - 1) + texts[n - 1..];
    var toks' := Dollars(n) + texts[n..];
    InterleaveSplit(segments, toks, n - 1);
    InterleaveSplit(segments, toks', n - 1);
    assert toks[..n - 1] == Dollars(n - 1) == toks'[..n - 1];
    assert toks[n..] == texts[n..] == toks'[n..];
    var target := PlaceholderText(names[n - 1]);
    assert toks[n - 1] == target;
    assert toks'[n - 1] == Dollar(n);
    var a := Interleave(segments[..n], Dollars(n - 1));
    var b := Interleave(segments[n..], texts[n..]);
    InterleaveWithoutPercent(segments[..n], Dollars(n - 1));
    ReplaceFirstAfter(a, target, b, Dollar(n));
  }

  /**
   * `prepare` numbers the placeholders in order of appearance: a buffer
   * whose placeholders appear in the order of the placeholder map becomes
   * `PREPARE name AS` the same text with `$1 ... $n` in their places.
   */
  lemma PrepareNumbersInOrder(c: Compiler, name: string, datatypes: seq<string>, segments: seq<string>)
    requires |segments| == |c.placeholders| + 1
    requires forall i :: 0 <= i < |segments| ==> '%' !in segments[i]
    requires Strip(c.buf) == Interleave(segments, PlaceholderTexts(Dict.Values(c.placeholders)))
    requires "%s" !in Dict.Values(c.placeholders)
    ensures Prepare(c, name, datatypes).Success?
    ensures Prepare(c, name, datatypes).value.stmt
         == "PREPARE " + name + DatatypesClause(datatypes) + " AS " + Interleave(segments, Dollars(|c.placeholders|))
  {
    RenumberInOrder(segments, Dict.Values(c.placeholders));
  }

  /** Text whose placeholders appear in the order of the names gets `$1 ... $n` in their places. */
  lemma RenumberInOrder(segments: seq<string>, names: seq<string>)
    requires |segments| == |names| + 1
    requires forall i :: 0 <= i < |segments| ==> '%' !in segments[i]
    ensures RenumberText(Interleave(segments, PlaceholderTexts(names)), names) == Interleave(segments, Dollars(|names|))
  {
    RenumberPrefix(segments, names, |names|);
    assert names[..|names|] == names;
    assert Dollars(|names|) + PlaceholderTexts(names)[|names|..] == Dollars(|names|);
  }

  lemma ShiftedSnoc(names: seq<string>)
    requires |names| > 0
    ensures Shifted(names, 0) == Shifted(names[..|names| - 1], 0) + [(names[|names| - 1], |names|)]
  {
  }

  lemma KeysOfShifted(d: Dict.Dict<string, nat>, names: seq<string>)
    requires d == Shifted(names, 0)
    ensures Dict.Keys(d) == names
  {
  }

  /** Numbering all names is numbering all but the last, then assigning the last its position. */
  lemma NumberingSnoc(names: seq<string>)
    requires |names| > 0
    ensures Numbering(names) == Dict.Put<string, nat>(Numbering(names[..|names| - 1]), names[|names| - 1], |names|)
  {
  }

  /** With distinct names, the i-th name is numbered `i + 1`, in order. */
  lemma {:induction false} NumberingInOrder(names: seq<string>)
    requires forall i, j :: 0 <= i < j < |names| ==> names[i] != names[j]
    ensures Numbering(names) == Shifted(names, 0)
  {
    if |names| > 0 {
      var n: nat := |names|;
      var init := names[..n - 1];
      NumberingInOrder(init);
      var prev := Numbering(init);
      KeysOfShifted(prev, init);
      assert names[n - 1] !in init;
      NumberingSnoc(names);
      ShiftedSnoc(names);
    }
  }

  /** The caller's value for each name, in order. */
  function Lookup(names: seq<string>, d: map<string, Value>): (r: seq<Value>)
    requires forall i :: 0 <= i < |names| ==> names[i] in d
    ensures |r| == |names| && forall i :: 0 <= i < |names| ==> r[i] == d[names[i]]
  {
    seq(|names|, i requires 0 <= i < |names| => d[names[i]])
  }

  /** One step of the fill: the first name's value goes into slot `offset + 1`, and the rest are filled after it. */
  lemma FillFirst(names: seq<string>, d: map<string, Value>, params: seq<Value>, offset: nat)
    requires |names| > 0 && offset + |names| == |params|
    requires names[0] in d
    ensures Fill(Shifted(names, offset), d, params)
         == Fill(Shifted(names[1..], offset + 1), d, params[offset := d[names[0]]])
  {
    var items := Shifted(names, offset);
    assert items[0] == (names[0], offset + 1);
    assert Assign(params, offset + 1, d[names[0]]) == Success(params[offset := d[names[0]]]);
    assert items[1..] == Shifted(names[1..], offset + 1);
  }

  lemma LookupCons(names: seq<string>, d: map<string, Value>)
    requires |names| > 0
    requires forall i :: 0 <= i < |names| ==> names[i] in d
    ensures Lookup(names, d) == [d[names[0]]] + Lookup(names[1..], d)
  {
    assert Lookup(names, d)[1..] == Lookup(names[1..], d);
  }

  /** Writing `v` at `offset` and appending the rest is keeping the prefix and appending `v` and the rest. */
  lemma UpdateThenAppend(params: seq<Value>, offset: nat, v: Value, rest: seq<Value>)
    requires offset < |params|
    ensures params[offset := v][..offset + 1] + rest == params[..offset] + ([v] + rest)
  {
    assert params[offset := v][..offset + 1] == params[..offset] + [v];
  }

  /** Filling slots `offset + 1, offset + 2, ...` in order writes the looked-up values there. */
  lemma {:induction false} FillInOrder(names: seq<string>, d: map<string, Value>, params: seq<Value>, offset: nat)
    requires offset + |names| == |params|
    requires forall i :: 0 <= i < |names| ==> names[i] in d
    ensures Fill(Shifted(names, offset), d, params) == Success(params[..offset] + Lookup(names, d))
  {
    if |names| > 0 {
      FillFirst(names, d, params, offset);
      FillInOrder(names[1..], d, params[offset := d[names[0]]], offset + 1);
      LookupCons(names, d);
      UpdateThenAppend(params, offset, d[names[0]], Lookup(names[1..], d));
    } else {
      assert Shifted(names, offset) == [];
      assert params[..offset] + Lookup(names, d) == params;
    }
  }

  /** Each name paired with its 1-based position after `offset`. */
  function Shifted(names: seq<string>, offset: nat): (r: seq<(string, nat)>)
    ensures |r| == |names| && forall i :: 0 <= i < |names| ==> r[i] == (names[i], offset + i + 1)
  {
    seq(|names|, i requires 0 <= i < |names| => (names[i], offset + i + 1))
  }

  /**
   * With distinct named placeholders, the converted parameters hold, in slot
   * `$i`, the caller's value for the i-th name; a missing name is `KeyError`.
   */
  lemma ConvertDistinctNames(names: seq<string>, d: map<string, Value>)
    requires forall i, j :: 0 <= i < j < |names| ==> names[i] != names[j]
    requires forall i :: 0 <= i < |names| ==> names[i] in d
    ensures Convert(ByName(Numbering(names)), Named(d)) == Success(Positional(ConvertIntended(names, d).value))
  {
    NumberingInOrder(names);
    ConvertShifted(names, d);
    IntendedLooksUp(names, d);
  }

  /**
   * With distinct named placeholders, all supplied, the converter `prepare`
   * returns puts the value of the i-th placeholder name in slot i, that is
   * at `placeholder_to_number[name] - 1`.
   */
  lemma PrepareConverts(c: Compiler, name: string, datatypes: seq<string>, d: map<string, Value>)
    requires Dict.DistinctValues(c.placeholders) && "%s" !in Dict.Values(c.placeholders)
    requires forall i :: 0 <= i < |c.placeholders| ==> c.placeholders[i].1 in d
    ensures Prepare(c, name, datatypes).Success?
    ensures Prepare(c, name, datatypes).value.convert.ByName?
    ensures var r := Convert(Prepare(c, name, datatypes).value.convert, Named(d));
            && r.Success? && r.value.Positional? && |r.value.items| == |c.placeholders|
            && forall i :: 0 <= i < |c.placeholders| ==> r.value.items[i] == d[c.placeholders[i].1]
  {
    var names := Dict.Values(c.placeholders);
    ConvertDistinctNames(names, d);
  }

  lemma ConvertShifted(names: seq<string>, d: map<string, Value>)
    requires forall i, j :: 0 <= i < j < |names| ==> names[i] != names[j]
    requires forall i :: 0 <= i < |names| ==> names[i] in d
    ensures Convert(ByName(Shifted(names, 0)), Named(d)) == Success(Positional(Lookup(names, d)))
  {
    var params := Repeat(SqlNull, |names|);
    FillInOrder(names, d, params, 0);
    assert params[..0] + Lookup(names, d) == Lookup(names, d);
  }

  lemma IntendedLooksUp(names: seq<string>, d: map<string, Value>)
    requires forall i :: 0 <= i < |names| ==> names[i] in d
    ensures ConvertIntended(names, d) == Success(Lookup(names, d))
  {
  }

  /**
   * Two bind parameters sharing one key: the statement has `$1` and `$2`,
   * but `placeholder_to_number` keeps a single entry numbered 2, so the
   * converter's one-slot list is indexed at 2 and raises `IndexError`.
   */
  lemma SharedKeyConvertFails(key: string, d: map<string, Value>)
    requires key in d
    ensures Numbering([key, key]) == [(key, 2)]
    ensures Convert(ByName(Numbering([key, key])), Named(d)) == Failure(IndexError)
    ensures ConvertIntended([key, key], d) == Success([d[key], d[key]])
  {
    SharedKeyNumbering(key);
    SharedKeyConvert(key, d);
    SharedKeyIntended(key, d);
  }

  /** The one-entry numbering asks for slot 2 of a one-slot list. */
  lemma SharedKeyConvert(key: string, d: map<string, Value>)
    requires key in d
    ensures Convert(ByName([(key, 2)]), Named(d)) == Failure(IndexError)
  {
    assert Fill([(key, 2)], d, [SqlNull]) == Failure(IndexError);
    assert Repeat(SqlNull, 1) == [SqlNull];
  }

  /** The corrected conversion fills both slots with the key's value. */
  lemma SharedKeyIntended(key: string, d: map<string, Value>)
    requires key in d
    ensures ConvertIntended([key, key], d) == Success([d[key], d[key]])
  {
    var r := ConvertIntended([key, key], d);
    assert r.value == [d[key], d[key]];
  }

  lemma SharedKeyNumbering(key: string)
    ensures Numbering([key, key]) == [(key, 2)]
  {
    assert [key, key][..1] == [key];
    assert [key][..0] == [];
    var empty: Dict.Dict<string, nat> := [];
    assert Numbering([key][..0]) == empty;
    var one := Numbering([key]);
    assert one == Dict.Put(empty, key, 1);
    assert one == [(key, 1)];
    assert Dict.IndexOf(one, key) == Some(0);
  }

  /** The parenthesised part of `EXECUTE name(...)` holds one `%s` per placeholder. */
  lemma ExecuteParams(name: string, n: nat)
    requires n >= 1
    ensures Split(Join(",", Repeat("%s", n)), ',') == Repeat("%s", n)
  {
    SplitJoin(Repeat("%s", n), ',');
  }
}
