/** Compilation of path templates to opcodes with a constant pool, and its inverse. */
module Compiler {
  import opened Wrappers
  import opened Templates
  import Strings

  const OPCODE_VERSION := 1
  const OP_PUSH := 1
  const OP_LIT_PUSH := 2
  const OP_PUSH_M := 3
  const OP_CONCAT_N := 4
  const OP_CAPTURE := 5

  datatype Op = Op(code: int, str: string, num: int)

  datatype Compiled = Compiled(version: int, opCodes: seq<int>, pool: seq<string>,
                               verb: string, fields: seq<string>, template: string)

  function SegmentOps(s: Segment): seq<Op>
    decreases s, 1
  {
    match s
    case Wildcard => [Op(OP_PUSH, "", 0)]
    case DeepWildcard => [Op(OP_PUSH_M, "", 0)]
    case Literal(text) => [Op(OP_LIT_PUSH, text, 0)]
    case Variable(path, segments) =>
      AllOps(segments) + [Op(OP_CONCAT_N, "", |segments|), Op(OP_CAPTURE, path, 0)]
  }

  function AllOps(segments: seq<Segment>): seq<Op>
    decreases segments, 0
  {
    if segments == [] then [] else SegmentOps(segments[0]) + AllOps(segments[1..])
  }

  /** The string operands in order of first use. */
  function Pool(ops: seq<Op>): seq<string> {
    if ops == [] then [] else
    var (pool, str) := (Pool(ops[..|ops| - 1]), ops[|ops| - 1].str);
    if str == "" || str in pool then pool else pool + [str]
  }

  /** The field paths bound by the variables of a template, outermost last. */
  function VariablePaths(segments: seq<Segment>): seq<string> {
    if segments == [] then []
    else
      (if segments[0].Variable? then VariablePaths(segments[0].segments) + [segments[0].path] else [])
      + VariablePaths(segments[1..])
  }

  function Captures(ops: seq<Op>): seq<string> {
    if ops == [] then []
    else (if ops[0].code == OP_CAPTURE then [ops[0].str] else []) + Captures(ops[1..])
  }

  // ----- the code -----

  lemma {:induction false} AllOpsAppend(a: seq<Segment>, b: seq<Segment>)
    ensures AllOps(a + b) == AllOps(a) + AllOps(b)
  {
    if a == [] {
      assert a + b == b;
    } else {
      assert (a + b)[1..] == a[1..] + b;
      AllOpsAppend(a[1..], b);
    }
  }

  method CompileSegment(s: Segment) returns (ops: seq<Op>)
    ensures ops == SegmentOps(s)
    decreases s, 1
  {
    match s {
      case Wildcard => ops := [Op(OP_PUSH, "", 0)];
      case DeepWildcard => ops := [Op(OP_PUSH_M, "", 0)];
      case Literal(text) => ops := [Op(OP_LIT_PUSH, text, 0)];
      case Variable(path, segments) =>
        ops := CompileSegments(segments);
        ops := ops + [Op(OP_CONCAT_N, "", |segments|), Op(OP_CAPTURE, path, 0)];
    }
  }

  method CompileSegments(segments: seq<Segment>) returns (ops: seq<Op>)
    ensures ops == AllOps(segments)
    decreases segments, 0
  {
    ops := [];
    for i := 0 to |segments|
      invariant ops == AllOps(segments[..i])
    {
      var more := CompileSegment(segments[i]);
      ops := ops + more;
      assert segments[..i + 1] == segments[..i] + [segments[i]];
      AllOpsAppend(segments[..i], [segments[i]]);
      assert AllOps([segments[i]]) == SegmentOps(segments[i]);
    }
    assert segments[..|segments|] == segments;
  }

  /** An operand is a pool index, or the number of an op without string. */
  predicate OperandOf(op: Op, operand: int, pool: seq<string>) {
    if op.str == "" then operand == op.num else 0 <= operand < |pool| && pool[operand] == op.str
  }

  /** `codes` lists each op as its code and its operand. */
  predicate Encodes(ops: seq<Op>, codes: seq<int>, pool: seq<string>) {
    if ops == [] then codes == []
    else |codes| >= 2 && codes[0] == ops[0].code && OperandOf(ops[0], codes[1], pool)
         && Encodes(ops[1..], codes[2..], pool)
  }

  lemma {:induction false} CapturesAppend(a: seq<Op>, b: seq<Op>)
    ensures Captures(a + b) == Captures(a) + Captures(b)
  {
    if a == [] {
      assert a + b == b;
    } else {
      assert (a + b)[1..] == a[1..] + b;
      CapturesAppend(a[1..], b);
    }
  }

  lemma {:induction false} FieldPaths(segments: seq<Segment>)
    ensures Captures(AllOps(segments)) == VariablePaths(segments)
  {
    if segments != [] {
      var s := segments[0];
      FieldPaths(segments[1..]);
      CapturesAppend(SegmentOps(s), AllOps(segments[1..]));
      if s.Variable? {
        FieldPaths(s.segments);
        var tail := [Op(OP_CONCAT_N, "", |s.segments|), Op(OP_CAPTURE, s.path, 0)];
        CapturesAppend(AllOps(s.segments), tail);
        assert tail[1..] == [Op(OP_CAPTURE, s.path, 0)];
        assert Captures(tail[1..]) == [s.path];
      }
    }
  }

  /** The pool holds every non-empty string operand once, and nothing else. */
  lemma {:induction false} PoolExact(ops: seq<Op>)
    ensures forall i, j | 0 <= i < j < |Pool(ops)| :: Pool(ops)[i] != Pool(ops)[j]
    ensures forall str :: str in Pool(ops) <==> str != "" && exists i | 0 <= i < |ops| :: ops[i].str == str
  {
    if ops != [] {
      var n := |ops| - 1;
      PoolExact(ops[..n]);
      forall str
        ensures str in Pool(ops) <==> str != "" && exists i | 0 <= i < |ops| :: ops[i].str == str
      {
        if str in Pool(ops[..n]) {
          var i :| 0 <= i < |ops[..n]| && ops[..n][i].str == str;
          assert ops[i].str == str;
        }
        if i :| 0 <= i < |ops| && ops[i].str == str {
          assert i < n ==> ops[..n][i].str == str;
        }
      }
    }
  }

  lemma {:induction false} EncodesStep(ops: seq<Op>, codes: seq<int>, pool: seq<string>,
                                       op: Op, operand: int, pool': seq<string>)
    requires Encodes(ops, codes, pool) && pool <= pool' && OperandOf(op, operand, pool')
    ensures Encodes(ops + [op], codes + [op.code, operand], pool')
  {
    if ops == [] {
      assert ops + [op] == [op] && codes + [op.code, operand] == [op.code, operand];
    } else {
      assert (ops + [op])[1..] == ops[1..] + [op];
      assert (codes + [op.code, operand])[2..] == codes[2..] + [op.code, operand];
      EncodesStep(ops[1..], codes[2..], pool, op, operand, pool');
    }
  }

  lemma PoolStep(ops: seq<Op>, op: Op)
    ensures Pool(ops + [op]) == if op.str == "" || op.str in Pool(ops) then Pool(ops) else Pool(ops) + [op.str]
  {
    var all := ops + [op];
    assert all[..|all| - 1] == ops;
  }

  lemma CapturesStep(ops: seq<Op>, op: Op)
    ensures Captures(ops + [op]) == if op.code == OP_CAPTURE then Captures(ops) + [op.str] else Captures(ops)
  {
    CapturesAppend(ops, [op]);
    assert [op][1..] == [];
  }

  /** The map of constants is the inverse of the pool. */
  predicate Indexes(consts: map<string, int>, pool: seq<string>) {
    && (forall i | 0 <= i < |pool| :: pool[i] in consts)
    && (forall str | str in consts :: 0 <= consts[str] < |pool| && pool[consts[str]] == str)
  }

  /** The pool with the string of one more op. */
  function Pooled(pool: seq<string>, str: string): seq<string> {
    if str == "" || str in pool then pool else pool + [str]
  }

  /** What the loop has built from the ops `done`. */
  ghost predicate Built(done: seq<Op>, codes: seq<int>, pool: seq<string>, fields: seq<string>) {
    pool == Pool(done) && Encodes(done, codes, pool) && fields == Captures(done)
  }

  lemma BuiltStep(done: seq<Op>, codes: seq<int>, pool: seq<string>, fields: seq<string>, op: Op, operand: int)
    requires Built(done, codes, pool, fields) && OperandOf(op, operand, Pooled(pool, op.str))
    ensures Built(done + [op], codes + [op.code, operand], Pooled(pool, op.str),
                  if op.code == OP_CAPTURE then fields + [op.str] else fields)
  {
    PoolStep(done, op);
    EncodesStep(done, codes, pool, op, operand, Pooled(pool, op.str));
    CapturesStep(done, op);
  }

  /** The operand of an op, entering its string into the pool on first use. */
  method Operand(op: Op, pool: seq<string>, consts: map<string, int>)
      returns (num: int, pool': seq<string>, consts': map<string, int>)
    requires Indexes(consts, pool)
    ensures Indexes(consts', pool') && pool' == Pooled(pool, op.str) && OperandOf(op, num, pool')
  {
    num, pool', consts' := op.num, pool, consts;
    if op.str != "" {
      if op.str !in consts {
        assert op.str !in pool;
        consts' := consts[op.str := |pool|];
        pool' := pool + [op.str];
      } else {
        assert pool[consts[op.str]] == op.str;
      }
      num := consts'[op.str];
    }
  }

  /** One turn of the loop. */
  method CompileOp(op: Op, ghost done: seq<Op>,
                   ops: seq<int>, pool: seq<string>, fields: seq<string>, consts: map<string, int>)
      returns (ops': seq<int>, pool': seq<string>, fields': seq<string>, consts': map<string, int>)
    requires Built(done, ops, pool, fields) && Indexes(consts, pool)
    ensures Built(done + [op], ops', pool', fields') && Indexes(consts', pool')
  {
    var num;
    num, pool', consts' := Operand(op, pool, consts);
    BuiltStep(done, ops, pool, fields, op, num);
    ops' := ops + [op.code, num];
    fields' := if op.code == OP_CAPTURE then fields + [op.str] else fields;
  }

  method Compile(t: Template) returns (c: Compiled)
    ensures c.version == OPCODE_VERSION && c.verb == t.verb && c.template == t.template
    ensures c.pool == Pool(AllOps(t.segments))
    ensures Encodes(AllOps(t.segments), c.opCodes, c.pool)
    ensures c.fields == VariablePaths(t.segments)
  {
    var rawOps := CompileSegments(t.segments);
    var ops: seq<int> := [];
    var pool, fields: seq<string> := [], [];
    var consts: map<string, int> := map[];
    for k := 0 to |rawOps|
      invariant Built(rawOps[..k], ops, pool, fields) && Indexes(consts, pool)
    {
      ops, pool, fields, consts := CompileOp(rawOps[k], rawOps[..k], ops, pool, fields, consts);
      assert rawOps[..k + 1] == rawOps[..k] + [rawOps[k]];
    }
    assert rawOps[..|rawOps|] == rawOps;
    FieldPaths(t.segments);
    c := Compiled(OPCODE_VERSION, ops, pool, t.verb, fields, t.template);
  }

  // ----- reading the opcodes back -----

  predicate HasString(code: int) {
    code == OP_LIT_PUSH || code == OP_CAPTURE
  }

  /** Reads the opcodes through the pool. */
  function Decode(codes: seq<int>, pool: seq<string>): Option<seq<Op>> {
    if codes == [] then Some([])
    else if |codes| == 1 then None
    else if HasString(codes[0]) && !(0 <= codes[1] < |pool|) then None
    else
      var op := if HasString(codes[0]) then Op(codes[0], pool[codes[1]], 0) else Op(codes[0], "", codes[1]);
      match Decode(codes[2..], pool)
      case None => None
      case Some(ops) => Some([op] + ops)
  }

  /** The strings the compiler relies on to tell the two kinds of operand apart. */
  predicate StringsPresent(segments: seq<Segment>) {
    segments == [] ||
    ((match segments[0]
      case Literal(text) => text != ""
      case Variable(path, inner) => path != "" && StringsPresent(inner)
      case _ => true)
     && StringsPresent(segments[1..]))
  }

  /** Ops as the segments emit them: a string operand or a number, never both. */
  predicate IsEmitted(op: Op) {
    if HasString(op.code) then op.num == 0 else op.str == ""
  }

  predicate AllEmitted(ops: seq<Op>) {
    forall i | 0 <= i < |ops| :: IsEmitted(ops[i])
  }

  predicate NoEmptyString(ops: seq<Op>) {
    forall i | 0 <= i < |ops| :: HasString(ops[i].code) ==> ops[i].str != ""
  }

  lemma EmittedAppend(a: seq<Op>, b: seq<Op>)
    ensures AllEmitted(a + b) <==> AllEmitted(a) && AllEmitted(b)
    ensures NoEmptyString(a + b) <==> NoEmptyString(a) && NoEmptyString(b)
  {
    assert forall i | 0 <= i < |a| :: (a + b)[i] == a[i];
    assert forall i | 0 <= i < |b| :: (a + b)[|a| + i] == b[i];
  }

  lemma {:induction false} OpsEmitted(segments: seq<Segment>)
    ensures AllEmitted(AllOps(segments))
    ensures StringsPresent(segments) <==> NoEmptyString(AllOps(segments))
  {
    if segments != [] {
      var s := segments[0];
      OpsEmitted(segments[1..]);
      EmittedAppend(SegmentOps(s), AllOps(segments[1..]));
      if s.Variable? {
        OpsEmitted(s.segments);
        var tail := [Op(OP_CONCAT_N, "", |s.segments|), Op(OP_CAPTURE, s.path, 0)];
        EmittedAppend(AllOps(s.segments), tail);
        assert AllEmitted(tail) && (NoEmptyString(tail) <==> tail[1].str != "");
      } else {
        assert SegmentOps(s)[0].code == OP_LIT_PUSH <==> s.Literal?;
      }
    }
  }

  /** Reading back is exact if and only if no string operand is empty. */
  lemma {:induction false} DecodeExact(ops: seq<Op>, codes: seq<int>, pool: seq<string>)
    requires AllEmitted(ops) && Encodes(ops, codes, pool) && "" !in pool
    ensures Decode(codes, pool) == Some(ops) <==> NoEmptyString(ops)
  {
    if ops != [] {
      DecodeExact(ops[1..], codes[2..], pool);
      assert ops == [ops[0]] + ops[1..];
      assert Decode(codes, pool) == Some(ops) ==>
        Decode(codes[2..], pool).Some? && Decode(codes[2..], pool).value == ops[1..];
    }
  }

  // ----- rebuilding the segments -----

  datatype Item = Seg(s: Segment) | Group(segs: seq<Segment>)

  function Items(segs: seq<Segment>): (items: seq<Item>)
    ensures |items| == |segs| && forall i | 0 <= i < |segs| :: items[i] == Seg(segs[i])
  {
    seq(|segs|, i requires 0 <= i < |segs| => Seg(segs[i]))
  }

  predicate AllSegs(items: seq<Item>) {
    forall i | 0 <= i < |items| :: items[i].Seg?
  }

  function Segs(items: seq<Item>): (segs: seq<Segment>)
    requires AllSegs(items)
  {
    seq(|items|, i requires 0 <= i < |items| => items[i].s)
  }

  /** A stack machine; `None` is an underflow or an ill-typed operand. */
  function Exec(ops: seq<Op>, stack: seq<Item>): Option<seq<Item>> {
    if ops == [] then Some(stack) else
    var (op, n) := (ops[0], |stack|);
    if op.code == OP_PUSH then Exec(ops[1..], stack + [Seg(Wildcard)])
    else if op.code == OP_PUSH_M then Exec(ops[1..], stack + [Seg(DeepWildcard)])
    else if op.code == OP_LIT_PUSH then Exec(ops[1..], stack + [Seg(Literal(op.str))])
    else if op.code == OP_CONCAT_N && 0 <= op.num <= n && AllSegs(stack[n - op.num..]) then
      Exec(ops[1..], stack[..n - op.num] + [Group(Segs(stack[n - op.num..]))])
    else if op.code == OP_CAPTURE && n > 0 && stack[n - 1].Group? then
      Exec(ops[1..], stack[..n - 1] + [Seg(Variable(op.str, stack[n - 1].segs))])
    else None
  }

  function Decompile(ops: seq<Op>): Option<seq<Segment>> {
    match Exec(ops, [])
    case Some(items) => if AllSegs(items) then Some(Segs(items)) else None
    case None => None
  }

  /** Running the ops of `segs` pushes exactly `segs`. */
  lemma {:induction false} ExecAll(segs: seq<Segment>, rest: seq<Op>, stack: seq<Item>)
    ensures Exec(AllOps(segs) + rest, stack) == Exec(rest, stack + Items(segs))
    decreases segs, 0
  {
    if segs == [] {
      assert AllOps(segs) + rest == rest && stack + Items(segs) == stack;
    } else {
      var tail := AllOps(segs[1..]) + rest;
      assert AllOps(segs) + rest == SegmentOps(segs[0]) + tail;
      ExecSegment(segs[0], tail, stack);
      ExecAll(segs[1..], rest, stack + [Seg(segs[0])]);
      assert stack + [Seg(segs[0])] + Items(segs[1..]) == stack + Items(segs);
    }
  }

  lemma {:induction false} ExecSegment(s: Segment, rest: seq<Op>, stack: seq<Item>)
    ensures Exec(SegmentOps(s) + rest, stack) == Exec(rest, stack + [Seg(s)])
    decreases s, 1
  {
    if s.Variable? {
      var n := |s.segments|;
      var concat, capture := Op(OP_CONCAT_N, "", n), Op(OP_CAPTURE, s.path, 0);
      var mid := [concat] + ([capture] + rest);
      assert SegmentOps(s) + rest == AllOps(s.segments) + mid;
      ExecAll(s.segments, mid, stack);
      var full := stack + Items(s.segments);
      ExecConcat(s.segments, [capture] + rest, stack);
      ExecCapture(s, rest, stack);
    } else {
      assert (SegmentOps(s) + rest)[1..] == rest;
    }
  }

  lemma ExecConcat(segs: seq<Segment>, rest: seq<Op>, stack: seq<Item>)
    ensures Exec([Op(OP_CONCAT_N, "", |segs|)] + rest, stack + Items(segs)) == Exec(rest, stack + [Group(segs)])
  {
    var full, k := stack + Items(segs), |stack|;
    assert full[k..] == Items(segs) && full[..k] == stack;
    assert Segs(Items(segs)) == segs;
    assert ([Op(OP_CONCAT_N, "", |segs|)] + rest)[1..] == rest;
  }

  lemma ExecCapture(s: Segment, rest: seq<Op>, stack: seq<Item>)
    requires s.Variable?
    ensures Exec([Op(OP_CAPTURE, s.path, 0)] + rest, stack + [Group(s.segments)]) == Exec(rest, stack + [Seg(s)])
  {
    var full := stack + [Group(s.segments)];
    assert full[..|full| - 1] == stack;
    assert ([Op(OP_CAPTURE, s.path, 0)] + rest)[1..] == rest;
  }

  /** The ops determine the segments, and running them never underflows the stack. */
  lemma DecompileOps(segs: seq<Segment>)
    ensures Decompile(AllOps(segs)) == Some(segs)
  {
    ExecAll(segs, [], []);
    assert AllOps(segs) + [] == AllOps(segs) && [] + Items(segs) == Items(segs);
    assert Segs(Items(segs)) == segs;
  }

  /** Compilation loses nothing: the opcodes and the pool give the segments back. */
  lemma CompileInvertible(segs: seq<Segment>, codes: seq<int>)
    requires Encodes(AllOps(segs), codes, Pool(AllOps(segs)))
    ensures Decode(codes, Pool(AllOps(segs))) == Some(AllOps(segs)) <==> StringsPresent(segs)
    ensures StringsPresent(segs) ==>
            var ops := Decode(codes, Pool(AllOps(segs))); ops.Some? && Decompile(ops.value) == Some(segs)
  {
    PoolExact(AllOps(segs));
    OpsEmitted(segs);
    DecodeExact(AllOps(segs), codes, Pool(AllOps(segs)));
    DecompileOps(segs);
  }

  /** Every template the parser returns is one the compiler does not confuse. */
  lemma {:induction false} WellFormedStrings(segs: seq<Segment>)
    requires AllWellFormed(segs)
    ensures StringsPresent(segs)
  {
    if segs != [] {
      var s := segs[0];
      WellFormedStrings(segs[1..]);
      if s.Variable? {
        assert s.path == "" ==> !IsIdent(Strings.Split(s.path, '.')[0]);
        forall i | 0 <= i < |s.segments| ensures IsWellFormedSegment(s.segments[i]) {}
        WellFormedStrings(s.segments);
      }
    }
  }
}
