/**
 * Default cases of nested decode blocks. The parser keeps a stack of "default defaults"
 * that its actions push, copy and pop; it should compute lexical inheritance: a block
 * without a default case of its own gets the default declared by the nearest enclosing
 * block that declares one.
 */
module DecodeDefaults {
  import opened Wrappers

  // ----- the grammar -----

  /** A case list: default, constants, or default followed by constants, which the grammar accepts too. */
  datatype Case = DefaultCase | Constants(labels: seq<string>) | DefaultAnd(first: string, more: seq<string>)

  /** decode <field> [default <inst>] { <stmts> } */
  datatype Block = Block(field: string, dflt: Option<string>, stmts: Stmts)

  datatype Stmts = Last(stmt: Stmt) | More(stmt: Stmt, rest: Stmts)

  datatype Stmt =
    | Inst(cases: Case, inst: string)
    | Nested(cases: Case, block: Block)
    | Format(id: string, stmts: Stmts)
    | Cpp(directive: string)

  // ----- the generated decoder -----

  datatype Item = Label(cases: Case) | Code(inst: string) | Break | Raw(text: string)
                | Switch(field: string, items: Items)

  datatype Items = Nil | Cons(item: Item, rest: Items)

  function Append(a: Items, b: Items): Items
  {
    match a case Nil => b case Cons(x, rest) => Cons(x, Append(rest, b))
  }

  /** The decode_block and has_decode_default attributes of a code object. */
  datatype GenCode = GenCode(items: Items, hasDefault: bool)

  function Plus(a: GenCode, b: GenCode): GenCode
  {
    GenCode(Append(a.items, b.items), a.hasDefault || b.hasDefault)
  }

  function CaseCode(cases: Case, inst: string): GenCode
  {
    GenCode(Cons(Label(cases), Cons(Code(inst), Cons(Break, Nil))), cases.DefaultCase?)
  }

  /** A default pushed by `default <inst>`: labelled, but not an explicit default case. */
  function DefaultCode(inst: string): GenCode
  {
    CaseCode(DefaultCase, inst).(hasDefault := false)
  }

  // ----- lexical inheritance, without a stack -----

  /** The default declared by the innermost block on the path that declares one. */
  function Nearest(path: seq<Option<string>>): Option<string>
  {
    if path == [] then None
    else if path[|path| - 1].Some? then path[|path| - 1]
    else Nearest(path[..|path| - 1])
  }

  /** What a block generates, given the defaults its enclosing blocks declare, outermost first. */
  ghost function BlockCode(b: Block, path: seq<Option<string>>): Result<GenCode>
    decreases b, 0
  {
    var here := path + [b.dflt];
    match StmtsCode(b.stmts, here)
    case Abort => Abort
    case Ok(body) =>
      if body.hasDefault then Ok(GenCode(Cons(Switch(b.field, body.items), Nil), true))
      else
        match Nearest(here)
        case None => Abort
        case Some(inst) => Ok(GenCode(Cons(Switch(b.field, Append(body.items, DefaultCode(inst).items)), Nil), false))
  }

  ghost function StmtsCode(ss: Stmts, path: seq<Option<string>>): Result<GenCode>
    decreases ss, 0
  {
    match ss
    case Last(s) => StmtCode(s, path)
    case More(s, rest) =>
      match StmtCode(s, path)
      case Abort => Abort
      case Ok(c1) =>
        match StmtsCode(rest, path)
        case Abort => Abort
        case Ok(c2) => if c1.hasDefault && c2.hasDefault then Abort else Ok(Plus(c1, c2))
  }

  ghost function StmtCode(s: Stmt, path: seq<Option<string>>): Result<GenCode>
    decreases s, 0
  {
    match s
    case Inst(cases, inst) => Ok(CaseCode(cases, inst))
    case Cpp(text) => Ok(GenCode(Cons(Raw(text), Nil), false))
    case Format(_, stmts) => StmtsCode(stmts, path)
    case Nested(cases, block) =>
      match BlockCode(block, path)
      case Abort => Abort
      case Ok(c) => Ok(GenCode(Cons(Label(cases), c.items), cases.DefaultCase?))
  }

  // ----- the parser's actions -----

  class Parser {
    var defaultStack: seq<Option<GenCode>>

    constructor ()
      ensures defaultStack == [None]
    {
      defaultStack := [None];
    }

    /** The stack holds, for the block at each depth, the default in scope there. */
    ghost predicate TopIs(path: seq<Option<string>>)
      reads this
    {
      && defaultStack != []
      && defaultStack[|defaultStack| - 1] ==
         match Nearest(path) case None => None case Some(inst) => Some(DefaultCode(inst))
    }

    /** opt_default: push the declared default, or a copy of the one in scope. */
    method OptDefault(dflt: Option<string>, ghost path: seq<Option<string>>)
      requires TopIs(path)
      modifies this
      ensures TopIs(path + [dflt]) && defaultStack[..|defaultStack| - 1] == old(defaultStack)
    {
      ghost var here := path + [dflt];
      assert here[..|here| - 1] == path;
      match dflt {
        case None => defaultStack := defaultStack + [defaultStack[|defaultStack| - 1]];
        case Some(inst) => defaultStack := defaultStack + [Some(DefaultCode(inst))];
      }
    }

    /** decode_block : DECODE ID opt_default LBRACE decode_stmt_list RBRACE */
    method DecodeBlock(b: Block, ghost path: seq<Option<string>>) returns (r: Result<GenCode>)
      requires TopIs(path)
      modifies this
      ensures r == BlockCode(b, path)
      ensures r.Ok? ==> defaultStack == old(defaultStack)
      decreases b, 0
    {
      OptDefault(b.dflt, path);
      var body := DecodeStmtList(b.stmts, path + [b.dflt]);
      if body.Abort? {
        return Abort;
      }
      var defaultDefaults := defaultStack[|defaultStack| - 1];
      defaultStack := defaultStack[..|defaultStack| - 1];
      var code := body.value;
      if !code.hasDefault {
        if defaultDefaults.None? {
          return Abort;
        }
        code := Plus(code, defaultDefaults.value);
      }
      return Ok(code.(items := Cons(Switch(b.field, code.items), Nil)));
    }

    method DecodeStmtList(ss: Stmts, ghost path: seq<Option<string>>) returns (r: Result<GenCode>)
      requires TopIs(path)
      modifies this
      ensures r == StmtsCode(ss, path)
      ensures r.Ok? ==> defaultStack == old(defaultStack)
      decreases ss, 0
    {
      match ss
      case Last(s) =>
        r := DecodeStmt(s, path);
      case More(s, rest) =>
        var r1 := DecodeStmt(s, path);
        if r1.Abort? {
          return Abort;
        }
        var r2 := DecodeStmtList(rest, path);
        if r2.Abort? {
          return Abort;
        }
        if r1.value.hasDefault && r2.value.hasDefault {
          return Abort;
        }
        return Ok(Plus(r1.value, r2.value));
    }

    method DecodeStmt(s: Stmt, ghost path: seq<Option<string>>) returns (r: Result<GenCode>)
      requires TopIs(path)
      modifies this
      ensures r == StmtCode(s, path)
      ensures r.Ok? ==> defaultStack == old(defaultStack)
      decreases s, 0
    {
      match s
      case Inst(cases, inst) =>
        r := Ok(CaseCode(cases, inst));
      case Cpp(text) =>
        r := Ok(GenCode(Cons(Raw(text), Nil), false));
      case Format(_, stmts) =>
        r := DecodeStmtList(stmts, path);
      case Nested(cases, block) =>
        r := DecodeBlock(block, path);
        if r.Ok? {
          r := Ok(GenCode(Cons(Label(cases), r.value.items), cases.DefaultCase?));
        }
    }
  }

  // ----- one default per switch, and when parsing succeeds -----

  /** Whether a case list prints a default label. */
  function DefaultLabels(cases: Case): nat { if cases.Constants? then 0 else 1 }

  function IsDefault(x: Item): nat { if x.Label? then DefaultLabels(x.cases) else 0 }

  /** Default labels directly among these items. */
  function Defaults(items: Items): nat
  {
    match items case Nil => 0 case Cons(x, rest) => IsDefault(x) + Defaults(rest)
  }

  /** Every switch among these items, at any depth, has exactly one default label of its own. */
  predicate OneDefaultEach(items: Items)
  {
    match items
    case Nil => true
    case Cons(x, rest) => (x.Switch? ==> Defaults(x.items) == 1 && OneDefaultEach(x.items)) && OneDefaultEach(rest)
  }

  lemma {:induction false} AppendDefaults(a: Items, b: Items)
    ensures Defaults(Append(a, b)) == Defaults(a) + Defaults(b)
    ensures OneDefaultEach(Append(a, b)) <==> OneDefaultEach(a) && OneDefaultEach(b)
  {
    match a case Nil => case Cons(x, rest) => AppendDefaults(rest, b);
  }

  lemma CaseDefaults(cases: Case, inst: string)
    ensures Defaults(CaseCode(cases, inst).items) == DefaultLabels(cases)
    ensures OneDefaultEach(CaseCode(cases, inst).items)
  {
    var end := Cons(Break, Nil);
    assert Defaults(end) == 0 && OneDefaultEach(end);
    assert Defaults(Cons(Code(inst), end)) == 0 && OneDefaultEach(Cons(Code(inst), end));
  }

  /** Case lists of a statement list that join default with constants, looking through format blocks. */
  function Joined(ss: Stmts): nat
  {
    match ss
    case Last(s) => JoinedIn(s)
    case More(s, rest) => JoinedIn(s) + Joined(rest)
  }

  function JoinedIn(s: Stmt): nat
  {
    match s
    case Inst(cases, _) => if cases.DefaultAnd? then 1 else 0
    case Nested(cases, _) => if cases.DefaultAnd? then 1 else 0
    case Format(_, stmts) => Joined(stmts)
    case Cpp(_) => 0
  }

  /** No case list of the block, at any depth, joins default with constants. */
  predicate Unjoined(b: Block) { Joined(b.stmts) == 0 && UnjoinedBelow(b.stmts) }

  predicate UnjoinedBelow(ss: Stmts)
  {
    match ss
    case Last(s) => UnjoinedIn(s)
    case More(s, rest) => UnjoinedIn(s) && UnjoinedBelow(rest)
  }

  predicate UnjoinedIn(s: Stmt)
  {
    match s
    case Inst(_, _) => true
    case Cpp(_) => true
    case Format(_, stmts) => UnjoinedBelow(stmts)
    case Nested(_, block) => Unjoined(block)
  }

  /**
   * The items carry as many default labels as the flag and the joined case lists say, and the
   * switches below are complete exactly if the blocks below are free of such lists.
   */
  ghost predicate Complete(c: GenCode, joined: nat, unjoined: bool)
  {
    Defaults(c.items) == (if c.hasDefault then 1 else 0) + joined && (OneDefaultEach(c.items) <==> unjoined)
  }

  /** Every switch of a block has exactly one default label if and only if no case list joins default with constants. */
  lemma {:induction false} BlockComplete(b: Block, path: seq<Option<string>>)
    requires BlockCode(b, path).Ok?
    ensures Defaults(BlockCode(b, path).value.items) == 0
    ensures OneDefaultEach(BlockCode(b, path).value.items) <==> Unjoined(b)
    decreases b, 0
  {
    var here := path + [b.dflt];
    StmtsComplete(b.stmts, here);
    var body := StmtsCode(b.stmts, here).value;
    if !body.hasDefault {
      CaseDefaults(DefaultCase, Nearest(here).value);
      AppendDefaults(body.items, DefaultCode(Nearest(here).value).items);
    }
  }

  lemma {:induction false} StmtsComplete(ss: Stmts, path: seq<Option<string>>)
    requires StmtsCode(ss, path).Ok?
    ensures Complete(StmtsCode(ss, path).value, Joined(ss), UnjoinedBelow(ss))
    decreases ss, 0
  {
    match ss
    case Last(s) => StmtComplete(s, path);
    case More(s, rest) =>
      StmtComplete(s, path);
      StmtsComplete(rest, path);
      AppendDefaults(StmtCode(s, path).value.items, StmtsCode(rest, path).value.items);
  }

  lemma {:induction false} StmtComplete(s: Stmt, path: seq<Option<string>>)
    requires StmtCode(s, path).Ok?
    ensures Complete(StmtCode(s, path).value, JoinedIn(s), UnjoinedIn(s))
    decreases s, 0
  {
    match s
    case Inst(cases, inst) => CaseDefaults(cases, inst);
    case Cpp(text) =>
    case Format(_, stmts) => StmtsComplete(stmts, path);
    case Nested(cases, block) => BlockComplete(block, path);
  }

  /** `decode OP default unknown { default, 1: foo(); }` parses, and its switch has two default labels. */
  lemma TwoDefaultLabels(b: Block)
    requires b == Block("OP", Some("unknown"), Last(Inst(DefaultAnd("1", []), "foo")))
    ensures BlockCode(b, []).Ok? && !OneDefaultEach(BlockCode(b, []).value.items)
    ensures var sw := BlockCode(b, []).value.items.item; sw.Switch? && Defaults(sw.items) == 2
  {
    var here := [] + [b.dflt];
    assert Nearest(here) == Some("unknown");
    BlockAccepted(b, []);
    BlockComplete(b, []);
    var body := StmtsCode(b.stmts, here).value;
    CaseDefaults(b.stmts.stmt.cases, "foo");
    CaseDefaults(DefaultCase, "unknown");
    AppendDefaults(body.items, DefaultCode("unknown").items);
  }

  /** Plain default cases of a statement list, looking through format blocks. */
  function ExplicitDefaults(ss: Stmts): nat
  {
    match ss
    case Last(s) => ExplicitIn(s)
    case More(s, rest) => ExplicitIn(s) + ExplicitDefaults(rest)
  }

  function ExplicitIn(s: Stmt): nat
  {
    match s
    case Inst(cases, _) => if cases.DefaultCase? then 1 else 0
    case Nested(cases, _) => if cases.DefaultCase? then 1 else 0
    case Format(_, stmts) => ExplicitDefaults(stmts)
    case Cpp(_) => 0
  }

  /** No block has two plain default cases, and every block without one has a default in scope. */
  predicate Acceptable(b: Block, path: seq<Option<string>>)
    decreases b, 0
  {
    var here := path + [b.dflt];
    && ExplicitDefaults(b.stmts) <= 1 && (ExplicitDefaults(b.stmts) == 0 ==> Nearest(here).Some?)
    && AcceptableIn(b.stmts, here)
  }

  predicate AcceptableIn(ss: Stmts, path: seq<Option<string>>)
    decreases ss, 0
  {
    match ss
    case Last(s) => AcceptableStmt(s, path)
    case More(s, rest) => AcceptableStmt(s, path) && AcceptableIn(rest, path)
  }

  predicate AcceptableStmt(s: Stmt, path: seq<Option<string>>)
    decreases s, 0
  {
    match s
    case Inst(_, _) => true
    case Cpp(_) => true
    case Format(_, stmts) => AcceptableIn(stmts, path)
    case Nested(_, block) => Acceptable(block, path)
  }

  /** Parsing succeeds exactly on acceptable blocks. */
  lemma {:induction false} BlockAccepted(b: Block, path: seq<Option<string>>)
    ensures BlockCode(b, path).Ok? <==> Acceptable(b, path)
    decreases b, 0
  {
    StmtsAccepted(b.stmts, path + [b.dflt]);
  }

  lemma {:induction false} StmtsAccepted(ss: Stmts, path: seq<Option<string>>)
    ensures StmtsCode(ss, path).Ok? <==> AcceptableIn(ss, path) && ExplicitDefaults(ss) <= 1
    ensures StmtsCode(ss, path).Ok? ==> StmtsCode(ss, path).value.hasDefault == (ExplicitDefaults(ss) == 1)
    decreases ss, 0
  {
    match ss
    case Last(s) => StmtAccepted(s, path);
    case More(s, rest) =>
      StmtAccepted(s, path);
      StmtsAccepted(rest, path);
  }

  lemma {:induction false} StmtAccepted(s: Stmt, path: seq<Option<string>>)
    ensures StmtCode(s, path).Ok? <==> AcceptableStmt(s, path) && ExplicitIn(s) <= 1
    ensures StmtCode(s, path).Ok? ==> StmtCode(s, path).value.hasDefault == (ExplicitIn(s) == 1)
    decreases s, 0
  {
    match s
    case Inst(cases, inst) =>
    case Cpp(text) =>
    case Format(_, stmts) => StmtsAccepted(stmts, path);
    case Nested(cases, block) => BlockAccepted(block, path);
  }
}
