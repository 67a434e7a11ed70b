/**
 * The developer helpers of the admin pages (dash_access/utils/dev_utils.py):
 * a factory for single-field change functions, a factory for page-scoped
 * component ids, the status-to-toast mapping, and two transactional helpers
 * that validate, apply and, on failure, roll back a list of change
 * operations.
 *
 * The callables an operation carries (its change, rollback and validate
 * functions, and the store's get and put) are code this module cannot see:
 * they are parameters, and the two execute helpers return the sequence of
 * change and rollback calls they make instead of performing them. The toast
 * is reduced to its header and icon.
 */
module DevUtils {
  import opened Base

  // ---------------------------------------------------------------------
  // field_change_factory
  // ---------------------------------------------------------------------

  /**
   * A change function made by `field_change_factory`: the field it changes,
   * and the store's `put` and `get`. The factory's two branches (with and
   * without a type hint) build the same function, so the hint is not kept.
   */
  datatype FieldChange = FieldChange(field: string, put: (string, Row) -> bool, get: string -> Option<Row>)

  /** `field_change_factory`: a ValueError when `put` or `get` is missing. */
  function FieldChangeFactory(field: string, put: Option<(string, Row) -> bool>, get: Option<string -> Option<Row>>)
    : (r: Result<FieldChange>)
    ensures r.Err? <==> put.None? || get.None?
    ensures r.Err? ==> r.error == ValueError
    ensures r.Ok? ==> r.value.field == field && r.value.put == put.value && r.value.get == get.value
  {
    if put.None? then Err(ValueError)
    else if get.None? then Err(ValueError)
    else Ok(FieldChange(field, put.value, get.value))
  }

  /** What a change function returns, and the record it hands to `put` (None when it does not call `put`). */
  datatype ChangeOutcome = ChangeOutcome(returned: bool, putRecord: Option<Row>)

  /** A fetched record is falsy when it is None or an empty dict. */
  predicate Falsy(record: Option<Row>)
  {
    record.None? || record.value == map[]
  }

  /**
   * The change function: fetch the record; when it is falsy return False
   * without calling `put`; otherwise set the one field and return what
   * `put` returns for the record with every other field as fetched.
   */
  function ChangeField(c: FieldChange, id: string, value: Value): (r: ChangeOutcome)
    ensures r.putRecord.None? <==> Falsy(c.get(id))
    ensures r.putRecord.None? ==> !r.returned
    ensures r.putRecord.Some? ==>
      && r.returned == c.put(id, r.putRecord.value)
      && c.field in r.putRecord.value && r.putRecord.value[c.field] == value
      && forall k | k != c.field ::
           (k in r.putRecord.value <==> k in c.get(id).value) &&
           (k in r.putRecord.value ==> r.putRecord.value[k] == c.get(id).value[k])
  {
    var record := c.get(id);
    if Falsy(record) then ChangeOutcome(false, None)
    else
      var changed := record.value[c.field := value];
      ChangeOutcome(c.put(id, changed), Some(changed))
  }

  /** Changing a field to the value it already holds hands `put` the record as fetched. */
  lemma ChangeToSameValue(c: FieldChange, id: string)
    requires !Falsy(c.get(id)) && c.field in c.get(id).value
    ensures ChangeField(c, id, c.get(id).value[c.field]).putRecord == c.get(id)
  {
    var rec := c.get(id).value;
    assert rec[c.field := rec[c.field]] == rec;
  }

  // ---------------------------------------------------------------------
  // id_factory
  // ---------------------------------------------------------------------

  /** `id_factory(page)`: the function prefixing every id with the page and "-". */
  function IdFactory(page: string): string -> string
  {
    x => page + "-" + x
  }

  /**
   * A page's ids start with the page and "-", and the rest is the id asked
   * for; so one page never gives two ids the same name.
   */
  lemma IdFactoryIds(page: string, x: string, y: string)
    ensures IdFactory(page)(x)[..|page| + 1] == page + "-"
    ensures IdFactory(page)(x)[|page| + 1..] == x
    ensures IdFactory(page)(x) == IdFactory(page)(y) ==> x == y
  {
    var ix, iy := IdFactory(page)(x), IdFactory(page)(y);
    assert ix == (page + "-") + x;
    assert iy == (page + "-") + y;
    if ix == iy {
      assert x == ix[|page| + 1..] == iy[|page| + 1..] == y;
    }
  }

  // ---------------------------------------------------------------------
  // toast
  // ---------------------------------------------------------------------

  /** The status `toast` is given: a boolean or a word. */
  datatype Status = Flag(b: bool) | Word(w: string)

  /** A toast header: text, or the one-element tuple a trailing comma makes of it. */
  datatype Header = Text(text: string) | OneTuple(item: string)

  datatype ToastView = ToastView(header: Header, icon: string)

  /**
   * `toast` as written: the fallback branch assigns `'Warning',`, a
   * one-element tuple, to the header.
   */
  function ToastAsWritten(status: Status): ToastView
  {
    if status in [Word("success"), Flag(true)] then ToastView(Text("Success"), "success")
    else if status == Word("warning") then ToastView(Text("Warning"), "warning")
    else if status in [Flag(false), Word("danger")] then ToastView(Text("Failure"), "danger")
    else if status == Word("info") then ToastView(Text("Info"), "info")
    else ToastView(OneTuple("Warning"), "warning")
  }

  /** `toast` as evidently intended: every header is text. */
  function Toast(status: Status): (r: ToastView)
    ensures r.header.Text?
    ensures r.icon in ["success", "warning", "danger", "info"]
    ensures r.icon == "success" <==> status == Word("success") || status == Flag(true)
    ensures r.icon == "danger" <==> status == Word("danger") || status == Flag(false)
    ensures r.icon == "info" <==> status == Word("info")
  {
    var shown := ToastAsWritten(status);
    if shown.header.OneTuple? then ToastView(Text(shown.header.item), shown.icon) else shown
  }

  /** The two agree on every status but the unknown ones, where only the header's shape differs. */
  lemma ToastFallback(status: Status)
    ensures ToastAsWritten(status).icon == Toast(status).icon
    ensures status !in [Word("success"), Flag(true), Word("warning"), Flag(false), Word("danger"), Word("info")] ==>
      ToastAsWritten(status).header == OneTuple("Warning") && Toast(status) == ToastView(Text("Warning"), "warning")
    ensures status in [Word("success"), Flag(true), Word("warning"), Flag(false), Word("danger"), Word("info")] ==>
      ToastAsWritten(status) == Toast(status)
  {
  }

  // ---------------------------------------------------------------------
  // sequences of operations
  // ---------------------------------------------------------------------

  /** The first index whose element satisfies `p`, if any. */
  function FirstWhere<T>(s: seq<T>, p: T -> bool): (r: Option<nat>)
    ensures r.Some? ==> r.value < |s| && p(s[r.value]) && forall j | 0 <= j < r.value :: !p(s[j])
    ensures r.None? ==> forall j | 0 <= j < |s| :: !p(s[j])
  {
    if s == [] then None
    else if p(s[0]) then Some(0)
    else match FirstWhere(s[1..], p)
      case None => None
      case Some(k) => Some(k + 1)
  }

  lemma FirstWhereAppend<T>(s: seq<T>, x: T, p: T -> bool)
    ensures FirstWhere(s + [x], p) ==
      if FirstWhere(s, p).Some? then FirstWhere(s, p) else if p(x) then Some(|s|) else None
  {
    var t := s + [x];
    assert forall j | 0 <= j < |s| :: t[j] == s[j];
    assert t[|s|] == x;
  }

  /** What a validate function does with a value: accept it, reject it, or raise. */
  datatype Verdict = Valid | Invalid | Raises

  /** A call an execute helper makes: the op's change function, or its rollback function. */
  datatype Call<V> = Apply(id: string, value: V) | Rollback(id: string, value: V)

  /** The message and status an execute helper hands to `toast`. */
  datatype Notice = Notice(message: string, status: Status)

  /**
   * The state of the apply loop: the operations (whose `done` it sets), the
   * name of the operation that stopped it (empty while none did, as Python
   * reads both False and "" as falsy), whether it stopped, whether a
   * validator raised out of it, and the calls made so far.
   */
  datatype Progress<O, V> = Progress(ops: seq<O>, rollbacks: string, stopped: bool, raised: bool, calls: seq<Call<V>>)

  // ---------------------------------------------------------------------
  // execute_change_operations
  // ---------------------------------------------------------------------

  /** The whitespace `str.strip` removes, restricted to ASCII. */
  predicate Space(c: char)
  {
    c == ' ' || c == '\t' || c == '\n' || c == '\r' || c == 11 as char || c == 12 as char
  }

  function StripLeft(s: string): (r: string)
    ensures |r| <= |s| && r == s[|s| - |r|..]
    ensures forall i | 0 <= i < |s| - |r| :: Space(s[i])
    ensures r == [] || !Space(r[0])
  {
    if s != [] && Space(s[0]) then StripLeft(s[1..]) else s
  }

  function StripRight(s: string): (r: string)
    ensures |r| <= |s| && r == s[..|r|]
    ensures forall i | |r| <= i < |s| :: Space(s[i])
    ensures r == [] || !Space(r[|r| - 1])
  {
    if s != [] && Space(s[|s| - 1]) then StripRight(s[..|s| - 1]) else s
  }

  /** `str.strip`: the middle of the string with no leading or trailing whitespace. */
  function Strip(s: string): (r: string)
  {
    StripRight(StripLeft(s))
  }

  /** A stripped string is the slice of the original that starts where the leading whitespace ends. */
  lemma StripSlice(s: string)
    ensures var i := |s| - |StripLeft(s)|;
      i + |Strip(s)| <= |s| && forall k | 0 <= k < |Strip(s)| :: Strip(s)[k] == s[i + k]
  {
    var l := StripLeft(s);
    var r := StripRight(l);
    var i := |s| - |l|;
    assert Strip(s) == r;
    assert l == s[i..] && r == l[..|r|];
    forall k | 0 <= k < |r|
      ensures r[k] == s[i + k]
    {
      calc {
        r[k];
        l[..|r|][k];
        l[k];
        s[i..][k];
      }
    }
  }

  /** No whitespace is left at either end of a stripped string. */
  lemma StripEnds(s: string)
    ensures Strip(s) == [] || (!Space(Strip(s)[0]) && !Space(Strip(s)[|Strip(s)| - 1]))
  {
    var l := StripLeft(s);
    var r := StripRight(l);
    if r != [] {
      assert r[0] == l[0];
    }
  }

  /** A string strips to nothing exactly when it is all whitespace. */
  lemma StripBlank(s: string)
    ensures Strip(s) == [] <==> forall i | 0 <= i < |s| :: Space(s[i])
  {
    var l := StripLeft(s);
    var i := |s| - |l|;
    assert l == s[i..];
    if Strip(s) == [] {
      forall k | 0 <= k < |s|
        ensures Space(s[k])
      {
        if k >= i {
          assert s[k] == l[k - i];
        }
      }
    }
  }

  /** Stripping twice strips no more. */
  lemma StripTwice(s: string)
    ensures Strip(Strip(s)) == Strip(s)
  {
    var r := Strip(s);
    StripEnds(s);
    assert StripLeft(r) == r;
    assert StripRight(r) == r;
  }

  /**
   * An operation of `execute_change_operations`. `hasRollback` says whether
   * the op has a `rollback_function` key; `change` is its `function` and
   * gives what the call returns.
   */
  datatype Op = Op(
    id: string,
    name: string,
    done: bool,
    newValue: Option<string>,
    oldValue: Option<string>,
    required: bool,
    hasRollback: bool,
    validate: Option<string> -> Verdict,
    change: (string, Option<string>) -> bool)

  /** The op after the first loop: a truthy new value is stripped. */
  function Stripped(op: Op): Op
  {
    if op.newValue.Some? && op.newValue.value != "" then op.(newValue := Some(Strip(op.newValue.value))) else op
  }

  /** A required op whose new value is "" or None. */
  predicate Blank(op: Op)
  {
    op.required && (op.newValue.None? || op.newValue == Some(""))
  }

  predicate BlankAfterStrip(op: Op)
  {
    Blank(Stripped(op))
  }

  /** The ops with the first `n` stripped. */
  function StripPrefix(ops: seq<Op>, n: nat): (r: seq<Op>)
    ensures |r| == |ops|
  {
    seq(|ops|, j requires 0 <= j < |ops| => if j < n then Stripped(ops[j]) else ops[j])
  }

  predicate Changed(op: Op)
  {
    op.newValue != op.oldValue
  }

  predicate AllSame(ops: seq<Op>)
  {
    forall j | 0 <= j < |ops| :: !Changed(ops[j])
  }

  /** A changed op that its validator rejects or raises on: the loop stops there. */
  predicate Rejected(op: Op)
  {
    Changed(op) && op.validate(op.newValue) != Valid
  }

  /** The `done` an op ends the apply loop with, when the loop reaches it. */
  function DoneAfter(op: Op): bool
  {
    if Changed(op) then op.change(op.id, op.newValue) else op.done
  }

  /** The change calls for the changed ops, in list order. */
  function ChangeCalls(ops: seq<Op>): seq<Call<Option<string>>>
  {
    if ops == [] then []
    else
      var op := ops[|ops| - 1];
      ChangeCalls(ops[..|ops| - 1]) + (if Changed(op) then [Apply(op.id, op.newValue)] else [])
  }

  function ChangeAttempt(p: Progress<Op, Option<string>>, i: nat): Progress<Op, Option<string>>
    requires i < |p.ops|
  {
    var op := p.ops[i];
    if !Changed(op) then p
    else if op.validate(op.newValue) != Valid then p.(rollbacks := op.name, stopped := true)
    else p.(ops := p.ops[i := op.(done := op.change(op.id, op.newValue))], calls := p.calls + [Apply(op.id, op.newValue)])
  }

  /** Two ops that differ at most in `done`. */
  ghost predicate SameButDone(a: Op, b: Op)
  {
    a.id == b.id && a.name == b.name && a.newValue == b.newValue && a.oldValue == b.oldValue &&
    a.required == b.required && a.hasRollback == b.hasRollback && a.validate == b.validate && a.change == b.change
  }

  /** The apply loop over the first `n` ops; once stopped, nothing more happens. */
  function ChangeRun(ops: seq<Op>, n: nat): (p: Progress<Op, Option<string>>)
    requires n <= |ops|
    ensures |p.ops| == |ops| && !p.raised
    ensures forall j | 0 <= j < |ops| :: SameButDone(p.ops[j], ops[j])
    ensures forall j | n <= j < |ops| :: p.ops[j] == ops[j]
  {
    if n == 0 then Progress(ops, "", false, false, [])
    else
      var p := ChangeRun(ops, n - 1);
      if p.stopped then p else ChangeAttempt(p, n - 1)
  }

  /** After the loop has stopped, further ops change nothing. */
  lemma {:induction false} ChangeRunStops(ops: seq<Op>, i: nat, n: nat)
    requires i <= n <= |ops| && ChangeRun(ops, i).stopped
    ensures ChangeRun(ops, n) == ChangeRun(ops, i)
    decreases n
  {
    if n > i {
      ChangeRunStops(ops, i, n - 1);
      assert ChangeRun(ops, n - 1).stopped;
    }
  }

  /** The apply loop has gone through the first `n` ops without stopping, applying each changed one. */
  ghost predicate RanThrough(ops: seq<Op>, n: nat, p: Progress<Op, Option<string>>)
    requires n <= |ops| && |p.ops| == |ops|
  {
    && !p.stopped && p.rollbacks == "" && p.calls == ChangeCalls(ops[..n])
    && forall j | 0 <= j < n :: p.ops[j].done == DoneAfter(ops[j])
  }

  /** The apply loop has stopped at op `k`, keeping its name, after applying each changed op before it. */
  ghost predicate StoppedAt(ops: seq<Op>, k: nat, p: Progress<Op, Option<string>>)
    requires k < |ops| && |p.ops| == |ops|
  {
    && p.stopped && p.rollbacks == ops[k].name && p.calls == ChangeCalls(ops[..k])
    && (forall j | 0 <= j < k :: p.ops[j].done == DoneAfter(ops[j]))
    && (forall j | k <= j < |ops| :: p.ops[j] == ops[j])
  }

  /**
   * The apply loop visits the ops in order and stops at the first rejected
   * one, whose name it keeps: before that, every changed op has been
   * applied once, in order, and its `done` set from the change call.
   */
  lemma {:induction false} ChangeRunOutcome(ops: seq<Op>, n: nat)
    requires n <= |ops|
    ensures match FirstWhere(ops[..n], Rejected)
      case None => RanThrough(ops, n, ChangeRun(ops, n))
      case Some(k) => StoppedAt(ops, k, ChangeRun(ops, n))
  {
    if n > 0 {
      ChangeRunOutcome(ops, n - 1);
      assert ops[..n] == ops[..n - 1] + [ops[n - 1]];
      FirstWhereAppend(ops[..n - 1], ops[n - 1], Rejected);
      match FirstWhere(ops[..n - 1], Rejected)
      case Some(k) =>
        assert ChangeRun(ops, n) == ChangeRun(ops, n - 1);
      case None =>
        if Rejected(ops[n - 1]) {
          ChangeStopsHere(ops, n);
        } else {
          ChangeGoesOn(ops, n);
        }
    }
  }

  /** The loop, not stopped before the `n`-th op, stops at it when it is rejected. */
  lemma ChangeStopsHere(ops: seq<Op>, n: nat)
    requires 0 < n <= |ops| && Rejected(ops[n - 1])
    requires RanThrough(ops, n - 1, ChangeRun(ops, n - 1))
    ensures StoppedAt(ops, n - 1, ChangeRun(ops, n))
  {
    var prev := ChangeRun(ops, n - 1);
    assert prev.ops[n - 1] == ops[n - 1];
    assert ChangeRun(ops, n) == prev.(rollbacks := ops[n - 1].name, stopped := true);
  }

  /** The loop, not stopped before the `n`-th op, goes on past it when it is not rejected. */
  lemma ChangeGoesOn(ops: seq<Op>, n: nat)
    requires 0 < n <= |ops| && !Rejected(ops[n - 1])
    requires RanThrough(ops, n - 1, ChangeRun(ops, n - 1))
    ensures RanThrough(ops, n, ChangeRun(ops, n))
  {
    var prev := ChangeRun(ops, n - 1);
    assert prev.ops[n - 1] == ops[n - 1];
    assert ops[..n][..n - 1] == ops[..n - 1];
    assert ChangeRun(ops, n) == ChangeAttempt(prev, n - 1);
  }

  /** The change calls name only changed ops, with their new values. */
  lemma {:induction false} ChangeCallsOnlyChanged(ops: seq<Op>)
    ensures forall c | c in ChangeCalls(ops) ::
      exists j | 0 <= j < |ops| :: Changed(ops[j]) && c == Apply(ops[j].id, ops[j].newValue)
  {
    if ops != [] {
      var init := ops[..|ops| - 1];
      ChangeCallsOnlyChanged(init);
      forall c | c in ChangeCalls(ops)
        ensures exists j | 0 <= j < |ops| :: Changed(ops[j]) && c == Apply(ops[j].id, ops[j].newValue)
      {
        if c in ChangeCalls(init) {
          var j :| 0 <= j < |init| && Changed(init[j]) && c == Apply(init[j].id, init[j].newValue);
          assert init[j] == ops[j];
        } else {
          assert c == Apply(ops[|ops| - 1].id, ops[|ops| - 1].newValue);
        }
      }
    }
  }

  /** Every op, in order, rolled back by its rollback function with the new value, or by its function with the old one. */
  function RollbackCalls(ops: seq<Op>): (r: seq<Call<Option<string>>>)
    ensures |r| == |ops|
  {
    seq(|ops|, j requires 0 <= j < |ops| =>
      if ops[j].hasRollback then Rollback(ops[j].id, ops[j].newValue) else Apply(ops[j].id, ops[j].oldValue))
  }

  predicate AllDone(ops: seq<Op>)
  {
    forall j | 0 <= j < |ops| :: ops[j].done
  }

  /** The outcome of `execute_change_operations`: the notice, the ops as it leaves them, and its calls. */
  datatype ChangeResult = ChangeResult(notice: Notice, ops: seq<Op>, calls: seq<Call<Option<string>>>)

  /** `execute_change_operations`, as a function of the ops it is given. */
  function ExecuteChange(ops: seq<Op>, changeName: string): ChangeResult
  {
    match FirstWhere(ops, BlankAfterStrip)
    case Some(k) =>
      ChangeResult(Notice(ops[k].name + " cannot be blank.", Word("danger")), StripPrefix(ops, k + 1), [])
    case None =>
      var s := StripPrefix(ops, |ops|);
      if AllSame(s) then ChangeResult(Notice("Values are the same.", Word("warning")), s, [])
      else
        var p := ChangeRun(s, |s|);
        if p.rollbacks == "" && AllDone(p.ops) then
          ChangeResult(Notice("Successfully changed " + changeName, Word("success")), p.ops, p.calls)
        else if p.rollbacks != "" then
          ChangeResult(Notice(p.rollbacks + " is not valid.", Word("danger")), p.ops, p.calls + RollbackCalls(p.ops))
        else
          ChangeResult(Notice("Unable to change " + changeName + ". Rolled back.", Word("failure")), p.ops,
            p.calls + RollbackCalls(p.ops))
  }

  lemma StripPrefixStep(ops: seq<Op>, i: nat)
    requires i < |ops|
    ensures StripPrefix(ops, i)[i := Stripped(ops[i])] == StripPrefix(ops, i + 1)
  {
  }

  /**
   * The first loop of `execute_change_operations`: strip each op's new
   * value in place, and stop at the first required op left blank.
   */
  method StripRequired(ops: array<Op>) returns (blank: Option<nat>)
    modifies ops
    ensures blank == FirstWhere(old(ops[..]), BlankAfterStrip)
    ensures ops[..] == StripPrefix(old(ops[..]), if blank.Some? then blank.value + 1 else ops.Length)
  {
    ghost var given := ops[..];
    var i := 0;
    while i < ops.Length
      invariant 0 <= i <= ops.Length
      invariant ops[..] == StripPrefix(given, i)
      invariant forall j | 0 <= j < i :: !BlankAfterStrip(given[j])
    {
      StripPrefixStep(given, i);
      ops[i] := Stripped(ops[i]);
      if ops[i].required && (ops[i].newValue.None? || ops[i].newValue == Some("")) {
        assert BlankAfterStrip(given[i]);
        return Some(i);
      }
      i := i + 1;
    }
    return None;
  }

  /**
   * The apply loop of `execute_change_operations`: validate and apply each
   * changed op in order, setting its `done`; stop at the first rejected one.
   */
  method ApplyChanges(ops: array<Op>) returns (rollbacks: string, calls: seq<Call<Option<string>>>)
    modifies ops
    ensures var p := ChangeRun(old(ops[..]), ops.Length);
      ops[..] == p.ops && rollbacks == p.rollbacks && calls == p.calls
  {
    ghost var s := ops[..];
    ghost var stopped := false;
    rollbacks := "";
    calls := [];
    var i := 0;
    while i < ops.Length
      invariant 0 <= i <= ops.Length
      invariant ChangeRun(s, i) == Progress(ops[..], rollbacks, false, false, calls)
    {
      var op := ops[i];
      if op.newValue != op.oldValue {
        if op.validate(op.newValue) != Valid {
          rollbacks := op.name;
          stopped := true;
          assert ChangeRun(s, i + 1) == Progress(ops[..], rollbacks, true, false, calls);
          ChangeRunStops(s, i + 1, |s|);
          break;
        }
        ops[i] := op.(done := op.change(op.id, op.newValue));
        calls := calls + [Apply(op.id, op.newValue)];
      }
      i := i + 1;
    }
    assert ChangeRun(s, |s|) == Progress(ops[..], rollbacks, stopped, false, calls);
  }

  /** The rollback loop of `execute_change_operations`: one rollback call per op, in order. */
  method RollBackChanges(ops: array<Op>, before: seq<Call<Option<string>>>) returns (calls: seq<Call<Option<string>>>)
    ensures calls == before + RollbackCalls(ops[..])
  {
    calls := before;
    var k := 0;
    while k < ops.Length
      invariant 0 <= k <= ops.Length
      invariant calls == before + RollbackCalls(ops[..])[..k]
    {
      assert RollbackCalls(ops[..])[..k + 1] == RollbackCalls(ops[..])[..k] + [RollbackCalls(ops[..])[k]];
      if ops[k].hasRollback {
        calls := calls + [Rollback(ops[k].id, ops[k].newValue)];
      } else {
        calls := calls + [Apply(ops[k].id, ops[k].oldValue)];
      }
      k := k + 1;
    }
    assert RollbackCalls(ops[..])[..k] == RollbackCalls(ops[..]);
  }

  /** `execute_change_operations`: the ops are updated in place, the calls returned in the order they are made. */
  method ExecuteChangeOperations(ops: array<Op>, changeName: string) returns (notice: Notice, calls: seq<Call<Option<string>>>)
    modifies ops
    ensures notice == ExecuteChange(old(ops[..]), changeName).notice
    ensures ops[..] == ExecuteChange(old(ops[..]), changeName).ops
    ensures calls == ExecuteChange(old(ops[..]), changeName).calls
  {
    ghost var given := ops[..];
    var blank := StripRequired(ops);
    if blank.Some? {
      assert ops[blank.value].name == given[blank.value].name;
      return Notice(ops[blank.value].name + " cannot be blank.", Word("danger")), [];
    }
    ghost var s := ops[..];
    assert s == StripPrefix(given, |given|);
    if forall j | 0 <= j < ops.Length :: ops[j].newValue == ops[j].oldValue {
      assert AllSame(s);
      return Notice("Values are the same.", Word("warning")), [];
    }
    assert !AllSame(s);
    var rollbacks;
    rollbacks, calls := ApplyChanges(ops);
    ghost var p := ChangeRun(s, |s|);
    assert ops[..] == p.ops && rollbacks == p.rollbacks && calls == p.calls;
    if rollbacks == "" && forall j | 0 <= j < ops.Length :: ops[j].done {
      assert AllDone(p.ops);
      return Notice("Successfully changed " + changeName, Word("success")), calls;
    }
    assert !(p.rollbacks == "" && AllDone(p.ops));
    calls := RollBackChanges(ops, calls);
    if rollbacks != "" {
      notice := Notice(rollbacks + " is not valid.", Word("danger"));
    } else {
      notice := Notice("Unable to change " + changeName + ". Rolled back.", Word("failure"));
    }
  }

  /**
   * A required op left blank after stripping is reported by name before
   * anything else happens: no change or rollback is called.
   */
  lemma BlankCallsNothing(ops: seq<Op>, changeName: string, k: nat)
    requires k < |ops| && BlankAfterStrip(ops[k])
    requires forall j | 0 <= j < k :: !BlankAfterStrip(ops[j])
    ensures ExecuteChange(ops, changeName).notice == Notice(ops[k].name + " cannot be blank.", Word("danger"))
    ensures ExecuteChange(ops, changeName).calls == []
  {
    assert FirstWhere(ops, BlankAfterStrip) == Some(k);
  }

  /** With nothing blank and every stripped new value equal to its old one, the result is a warning and nothing is called. */
  lemma SameValuesCallNothing(ops: seq<Op>, changeName: string)
    requires forall j | 0 <= j < |ops| :: !BlankAfterStrip(ops[j])
    requires forall j | 0 <= j < |ops| :: Stripped(ops[j]).newValue == ops[j].oldValue
    ensures ExecuteChange(ops, changeName) ==
      ChangeResult(Notice("Values are the same.", Word("warning")), StripPrefix(ops, |ops|), [])
  {
    assert FirstWhere(ops, BlankAfterStrip).None?;
    assert AllSame(StripPrefix(ops, |ops|));
  }

  /**
   * Past the checks, the change succeeds exactly when every op the loop
   * reaches ends up done and the loop did not stop at a rejected op, or
   * stopped at one whose name is empty (an empty name reads as "nothing
   * failed"). On success the calls are the change calls of the changed ops
   * before that point, in order.
   */
  lemma ChangeSucceedsIff(ops: seq<Op>, changeName: string)
    requires FirstWhere(ops, BlankAfterStrip).None? && !AllSame(StripPrefix(ops, |ops|))
    ensures var s := StripPrefix(ops, |ops|);
      var r := ExecuteChange(ops, changeName);
      match FirstWhere(s, Rejected)
      case None =>
        && (r.notice.status == Word("success") <==> forall j | 0 <= j < |s| :: DoneAfter(s[j]))
        && (r.notice.status == Word("success") ==> r.calls == ChangeCalls(s))
      case Some(k) =>
        && (r.notice.status == Word("success") <==>
              s[k].name == "" && (forall j | 0 <= j < k :: DoneAfter(s[j])) && (forall j | k <= j < |s| :: s[j].done))
        && (r.notice.status == Word("success") ==> r.calls == ChangeCalls(s[..k]))
  {
    var s := StripPrefix(ops, |ops|);
    ChangeRunOutcome(s, |s|);
    assert s[..|s|] == s;
    var p := ChangeRun(s, |s|);
    match FirstWhere(s, Rejected)
    case None =>
      RanThroughAllDone(s, p);
    case Some(k) =>
      StoppedAtAllDone(s, k, p);
  }

  /** A loop that ran through every op leaves them all done exactly when every op ends done. */
  lemma RanThroughAllDone(s: seq<Op>, p: Progress<Op, Option<string>>)
    requires |p.ops| == |s| && RanThrough(s, |s|, p)
    ensures AllDone(p.ops) <==> forall j | 0 <= j < |s| :: DoneAfter(s[j])
  {
  }

  /** A loop stopped at op `k` leaves them all done exactly when the ops before end done and the rest were done already. */
  lemma StoppedAtAllDone(s: seq<Op>, k: nat, p: Progress<Op, Option<string>>)
    requires k < |s| && |p.ops| == |s| && StoppedAt(s, k, p)
    ensures AllDone(p.ops) <==> (forall j | 0 <= j < k :: DoneAfter(s[j])) && (forall j | k <= j < |s| :: s[j].done)
  {
  }

  /**
   * When the change does not succeed past the checks, every op is rolled
   * back once, in list order, after the change calls made before the loop
   * stopped; the notice names the rejected op, or reports the rollback.
   */
  lemma ChangeFailureRollsBackAll(ops: seq<Op>, changeName: string)
    requires FirstWhere(ops, BlankAfterStrip).None? && !AllSame(StripPrefix(ops, |ops|))
    requires ExecuteChange(ops, changeName).notice.status != Word("success")
    ensures var s := StripPrefix(ops, |ops|);
      var r := ExecuteChange(ops, changeName);
      var applied := match FirstWhere(s, Rejected) case None => ChangeCalls(s) case Some(k) => ChangeCalls(s[..k]);
      && r.calls == applied + RollbackCalls(r.ops)
      && |RollbackCalls(r.ops)| == |ops|
      && r.notice.status in [Word("danger"), Word("failure")]
      && (FirstWhere(s, Rejected).Some? && s[FirstWhere(s, Rejected).value].name != "" ==>
            r.notice == Notice(s[FirstWhere(s, Rejected).value].name + " is not valid.", Word("danger")))
  {
    var s := StripPrefix(ops, |ops|);
    ChangeRunOutcome(s, |s|);
    assert s[..|s|] == s;
  }

  /** A rollback after a failed change is reported with the status "failure", which `toast` shows as a warning. */
  lemma RolledBackShowsWarning(ops: seq<Op>, changeName: string)
    requires ExecuteChange(ops, changeName).notice.status == Word("failure")
    ensures Toast(ExecuteChange(ops, changeName).notice.status) == ToastView(Text("Warning"), "warning")
    ensures ToastAsWritten(ExecuteChange(ops, changeName).notice.status) == ToastView(OneTuple("Warning"), "warning")
  {
  }

  // ---------------------------------------------------------------------
  // execute_update_operations
  // ---------------------------------------------------------------------

  /**
   * An operation of `execute_update_operations`: the new value is a list,
   * each item validated; `hasRollback` says whether the op has a
   * `rollback_function` key, which this helper always calls.
   */
  datatype UpdateOp = UpdateOp(
    id: string,
    name: string,
    done: bool,
    newValue: seq<string>,
    required: bool,
    hasRollback: bool,
    validate: string -> Verdict,
    change: (string, seq<string>) -> bool)

  /** What `execute_update_operations` ends with: a notice, or an exception it lets through. */
  datatype UpdateReport = Shown(notice: Notice) | ValidatorRaised | MissingRollback

  predicate EmptyRequired(op: UpdateOp)
  {
    op.required && op.newValue == []
  }

  /** The list of verdicts is built in full before `all` reads it, so any item that raises raises. */
  predicate ItemRaises(op: UpdateOp)
  {
    exists v | v in op.newValue :: op.validate(v) == Raises
  }

  predicate ItemsValid(op: UpdateOp)
  {
    forall v | v in op.newValue :: op.validate(v) == Valid
  }

  predicate NoRollback(op: UpdateOp)
  {
    !op.hasRollback
  }

  /** An op the apply loop stops at: one item raises, or one is not valid. */
  predicate Stops(op: UpdateOp)
  {
    ItemRaises(op) || !ItemsValid(op)
  }

  function UpdateCalls(ops: seq<UpdateOp>): (r: seq<Call<seq<string>>>)
    ensures |r| == |ops|
  {
    seq(|ops|, j requires 0 <= j < |ops| => Apply(ops[j].id, ops[j].newValue))
  }

  function UpdateAttempt(p: Progress<UpdateOp, seq<string>>, i: nat): Progress<UpdateOp, seq<string>>
    requires i < |p.ops|
  {
    var op := p.ops[i];
    if ItemRaises(op) then p.(stopped := true, raised := true)
    else if !ItemsValid(op) then p.(rollbacks := op.name, stopped := true)
    else p.(ops := p.ops[i := op.(done := op.change(op.id, op.newValue))], calls := p.calls + [Apply(op.id, op.newValue)])
  }

  /** Two update ops that differ at most in `done`. */
  ghost predicate SameUpdateButDone(a: UpdateOp, b: UpdateOp)
  {
    a.id == b.id && a.name == b.name && a.newValue == b.newValue &&
    a.required == b.required && a.hasRollback == b.hasRollback && a.validate == b.validate && a.change == b.change
  }

  /** The apply loop over the first `n` ops; once stopped, nothing more happens. */
  function UpdateRun(ops: seq<UpdateOp>, n: nat): (p: Progress<UpdateOp, seq<string>>)
    requires n <= |ops|
    ensures |p.ops| == |ops|
    ensures forall j | 0 <= j < |ops| :: SameUpdateButDone(p.ops[j], ops[j])
    ensures forall j | n <= j < |ops| :: p.ops[j] == ops[j]
  {
    if n == 0 then Progress(ops, "", false, false, [])
    else
      var p := UpdateRun(ops, n - 1);
      if p.stopped then p else UpdateAttempt(p, n - 1)
  }

  lemma {:induction false} UpdateRunStops(ops: seq<UpdateOp>, i: nat, n: nat)
    requires i <= n <= |ops| && UpdateRun(ops, i).stopped
    ensures UpdateRun(ops, n) == UpdateRun(ops, i)
    decreases n
  {
    if n > i {
      UpdateRunStops(ops, i, n - 1);
      assert UpdateRun(ops, n - 1).stopped;
    }
  }

  /** The update loop has applied each of the first `n` ops without stopping. */
  ghost predicate UpdateRanThrough(ops: seq<UpdateOp>, n: nat, p: Progress<UpdateOp, seq<string>>)
    requires n <= |ops| && |p.ops| == |ops|
  {
    && !p.stopped && !p.raised && p.rollbacks == "" && p.calls == UpdateCalls(ops[..n])
    && forall j | 0 <= j < n :: p.ops[j].done == ops[j].change(ops[j].id, ops[j].newValue)
  }

  /** The update loop has stopped at op `k`, raising or keeping its name, after applying each op before it. */
  ghost predicate UpdateStoppedAt(ops: seq<UpdateOp>, k: nat, p: Progress<UpdateOp, seq<string>>)
    requires k < |ops| && |p.ops| == |ops|
  {
    && p.stopped && p.calls == UpdateCalls(ops[..k])
    && (p.raised <==> ItemRaises(ops[k]))
    && (!p.raised ==> p.rollbacks == ops[k].name)
    && (forall j | 0 <= j < k :: p.ops[j].done == ops[j].change(ops[j].id, ops[j].newValue))
    && (forall j | k <= j < |ops| :: p.ops[j] == ops[j])
  }

  /**
   * The apply loop stops at the first op with an item that raises or is not
   * valid; before it every op is applied once, in order, with its whole list.
   */
  lemma {:induction false} UpdateRunOutcome(ops: seq<UpdateOp>, n: nat)
    requires n <= |ops|
    ensures match FirstWhere(ops[..n], Stops)
      case None => UpdateRanThrough(ops, n, UpdateRun(ops, n))
      case Some(k) => UpdateStoppedAt(ops, k, UpdateRun(ops, n))
  {
    if n > 0 {
      UpdateRunOutcome(ops, n - 1);
      assert ops[..n] == ops[..n - 1] + [ops[n - 1]];
      FirstWhereAppend(ops[..n - 1], ops[n - 1], Stops);
      match FirstWhere(ops[..n - 1], Stops)
      case Some(k) =>
        assert UpdateRun(ops, n) == UpdateRun(ops, n - 1);
      case None =>
        if Stops(ops[n - 1]) {
          UpdateStopsHere(ops, n);
        } else {
          UpdateGoesOn(ops, n);
        }
    }
  }

  /** The loop, not stopped before the `n`-th op, stops at it when one of its items raises or is not valid. */
  lemma UpdateStopsHere(ops: seq<UpdateOp>, n: nat)
    requires 0 < n <= |ops| && Stops(ops[n - 1])
    requires UpdateRanThrough(ops, n - 1, UpdateRun(ops, n - 1))
    ensures UpdateStoppedAt(ops, n - 1, UpdateRun(ops, n))
  {
    var prev := UpdateRun(ops, n - 1);
    assert prev.ops[n - 1] == ops[n - 1];
    assert UpdateRun(ops, n) == UpdateAttempt(prev, n - 1);
  }

  /** The loop, not stopped before the `n`-th op, applies it when all its items are valid. */
  lemma UpdateGoesOn(ops: seq<UpdateOp>, n: nat)
    requires 0 < n <= |ops| && !Stops(ops[n - 1])
    requires UpdateRanThrough(ops, n - 1, UpdateRun(ops, n - 1))
    ensures UpdateRanThrough(ops, n, UpdateRun(ops, n))
  {
    var prev := UpdateRun(ops, n - 1);
    assert prev.ops[n - 1] == ops[n - 1];
    assert UpdateCalls(ops[..n]) == UpdateCalls(ops[..n - 1]) + [Apply(ops[n - 1].id, ops[n - 1].newValue)];
    assert UpdateRun(ops, n) == UpdateAttempt(prev, n - 1);
  }

  predicate AllUpdatesDone(ops: seq<UpdateOp>)
  {
    forall j | 0 <= j < |ops| :: ops[j].done
  }

  function UpdateRollbackCalls(ops: seq<UpdateOp>): (r: seq<Call<seq<string>>>)
    ensures |r| == |ops|
  {
    seq(|ops|, j requires 0 <= j < |ops| => Rollback(ops[j].id, ops[j].newValue))
  }

  /** The outcome of `execute_update_operations`: the report, the ops as it leaves them, and its calls. */
  datatype UpdateResult = UpdateResult(report: UpdateReport, ops: seq<UpdateOp>, calls: seq<Call<seq<string>>>)

  /** `execute_update_operations`, as a function of the ops it is given. */
  function ExecuteUpdate(ops: seq<UpdateOp>, changeName: string): UpdateResult
  {
    match FirstWhere(ops, EmptyRequired)
    case Some(k) => UpdateResult(Shown(Notice(ops[k].name + " cannot be blank.", Word("danger"))), ops, [])
    case None =>
      var p := UpdateRun(ops, |ops|);
      if p.raised then UpdateResult(ValidatorRaised, p.ops, p.calls)
      else if p.rollbacks == "" && AllUpdatesDone(p.ops) then
        UpdateResult(Shown(Notice("Success: " + changeName, Word("success"))), p.ops, p.calls)
      else match FirstWhere(p.ops, NoRollback)
        case Some(m) => UpdateResult(MissingRollback, p.ops, p.calls + UpdateRollbackCalls(p.ops[..m]))
        case None =>
          UpdateResult(
            Shown(if p.rollbacks != "" then Notice(p.rollbacks + " value is not valid.", Word("danger"))
                  else Notice("Unsuccessful: " + changeName + ". Rolled back.", Word("failure"))),
            p.ops, p.calls + UpdateRollbackCalls(p.ops))
  }

  /** The first loop of `execute_update_operations`: find the first required op with an empty list. */
  method FindEmpty(ops: array<UpdateOp>) returns (empty: Option<nat>)
    ensures empty == FirstWhere(ops[..], EmptyRequired)
  {
    var i := 0;
    while i < ops.Length
      invariant 0 <= i <= ops.Length
      invariant forall j | 0 <= j < i :: !EmptyRequired(ops[j])
    {
      if ops[i].required && ops[i].newValue == [] {
        return Some(i);
      }
      i := i + 1;
    }
    return None;
  }

  /**
   * The apply loop of `execute_update_operations`: validate every item of
   * each op and apply it, in order; stop at the first op with an item that
   * is not valid, or raise out of the loop with a validator.
   */
  method ApplyUpdates(ops: array<UpdateOp>) returns (rollbacks: string, raised: bool, calls: seq<Call<seq<string>>>)
    modifies ops
    ensures var p := UpdateRun(old(ops[..]), ops.Length);
      ops[..] == p.ops && rollbacks == p.rollbacks && raised == p.raised && calls == p.calls
  {
    ghost var s := ops[..];
    ghost var stopped := false;
    rollbacks := "";
    raised := false;
    calls := [];
    var i := 0;
    while i < ops.Length
      invariant 0 <= i <= ops.Length
      invariant UpdateRun(s, i) == Progress(ops[..], rollbacks, false, false, calls)
    {
      var op := ops[i];
      if ItemRaises(op) {
        assert UpdateRun(s, i + 1) == Progress(ops[..], rollbacks, true, true, calls);
        UpdateRunStops(s, i + 1, |s|);
        return rollbacks, true, calls;
      }
      if !ItemsValid(op) {
        rollbacks := op.name;
        stopped := true;
        assert UpdateRun(s, i + 1) == Progress(ops[..], rollbacks, true, false, calls);
        UpdateRunStops(s, i + 1, |s|);
        break;
      }
      ops[i] := op.(done := op.change(op.id, op.newValue));
      calls := calls + [Apply(op.id, op.newValue)];
      i := i + 1;
    }
    assert UpdateRun(s, |s|) == Progress(ops[..], rollbacks, stopped, false, calls);
  }

  /**
   * The rollback loop of `execute_update_operations`: call each op's
   * rollback function in order; an op without one ends the loop with a
   * KeyError, reported as `missing`.
   */
  method RollBackUpdates(ops: array<UpdateOp>, before: seq<Call<seq<string>>>)
    returns (missing: bool, calls: seq<Call<seq<string>>>)
    ensures missing == FirstWhere(ops[..], NoRollback).Some?
    ensures missing ==> calls == before + UpdateRollbackCalls(ops[..FirstWhere(ops[..], NoRollback).value])
    ensures !missing ==> calls == before + UpdateRollbackCalls(ops[..])
  {
    calls := before;
    var k := 0;
    while k < ops.Length
      invariant 0 <= k <= ops.Length
      invariant forall j | 0 <= j < k :: !NoRollback(ops[j])
      invariant calls == before + UpdateRollbackCalls(ops[..k])
    {
      if !ops[k].hasRollback {
        assert FirstWhere(ops[..], NoRollback) == Some(k);
        return true, calls;
      }
      assert UpdateRollbackCalls(ops[..k + 1]) == UpdateRollbackCalls(ops[..k]) + [Rollback(ops[k].id, ops[k].newValue)];
      calls := calls + [Rollback(ops[k].id, ops[k].newValue)];
      k := k + 1;
    }
    assert ops[..k] == ops[..];
    return false, calls;
  }

  /** `execute_update_operations`: the ops are updated in place, the calls returned in the order they are made. */
  method ExecuteUpdateOperations(ops: array<UpdateOp>, changeName: string)
    returns (report: UpdateReport, calls: seq<Call<seq<string>>>)
    modifies ops
    ensures report == ExecuteUpdate(old(ops[..]), changeName).report
    ensures ops[..] == ExecuteUpdate(old(ops[..]), changeName).ops
    ensures calls == ExecuteUpdate(old(ops[..]), changeName).calls
  {
    var empty := FindEmpty(ops);
    if empty.Some? {
      return Shown(Notice(ops[empty.value].name + " cannot be blank.", Word("danger"))), [];
    }
    ghost var s := ops[..];
    var rollbacks, raised;
    rollbacks, raised, calls := ApplyUpdates(ops);
    ghost var p := UpdateRun(s, |s|);
    assert ops[..] == p.ops && rollbacks == p.rollbacks && raised == p.raised && calls == p.calls;
    if raised {
      return ValidatorRaised, calls;
    }
    if rollbacks == "" && forall j | 0 <= j < ops.Length :: ops[j].done {
      assert AllUpdatesDone(p.ops);
      return Shown(Notice("Success: " + changeName, Word("success"))), calls;
    }
    assert !(p.rollbacks == "" && AllUpdatesDone(p.ops));
    var missing;
    missing, calls := RollBackUpdates(ops, calls);
    if missing {
      return MissingRollback, calls;
    }
    if rollbacks != "" {
      report := Shown(Notice(rollbacks + " value is not valid.", Word("danger")));
    } else {
      report := Shown(Notice("Unsuccessful: " + changeName + ". Rolled back.", Word("failure")));
    }
  }

  /** A required op with an empty list is reported by name before anything is validated or called. */
  lemma EmptyListCallsNothing(ops: seq<UpdateOp>, changeName: string, k: nat)
    requires k < |ops| && EmptyRequired(ops[k])
    requires forall j | 0 <= j < k :: !EmptyRequired(ops[j])
    ensures ExecuteUpdate(ops, changeName) ==
      UpdateResult(Shown(Notice(ops[k].name + " cannot be blank.", Word("danger"))), ops, [])
  {
    assert FirstWhere(ops, EmptyRequired) == Some(k);
  }

  /**
   * Past the blank check: with no op stopping the loop, the update succeeds
   * exactly when every change call reports done, and then each op is
   * applied once, in order. A validator that raises ends the call with the
   * exception exactly when the loop stopped at an op with a raising item.
   */
  lemma UpdateOutcome(ops: seq<UpdateOp>, changeName: string)
    requires FirstWhere(ops, EmptyRequired).None?
    ensures var r := ExecuteUpdate(ops, changeName);
      && (FirstWhere(ops, Stops).None? ==>
            && (r.report == Shown(Notice("Success: " + changeName, Word("success"))) <==>
                  forall j | 0 <= j < |ops| :: ops[j].change(ops[j].id, ops[j].newValue))
            && (r.report.Shown? && r.report.notice.status == Word("success") ==> r.calls == UpdateCalls(ops)))
      && (r.report == ValidatorRaised <==> FirstWhere(ops, Stops).Some? && ItemRaises(ops[FirstWhere(ops, Stops).value]))
  {
    UpdateRunOutcome(ops, |ops|);
    assert ops[..|ops|] == ops;
    var p := UpdateRun(ops, |ops|);
    match FirstWhere(ops, Stops)
    case None =>
      assert UpdateRanThrough(ops, |ops|, p);
    case Some(k) =>
      assert UpdateStoppedAt(ops, k, p);
  }

  /**
   * When the update neither succeeds nor raises from a validator, every op
   * is rolled back in order with its new list, up to the first op without a
   * rollback function, where a KeyError ends it; an op stopped by an invalid
   * item whose name is empty reads as "nothing failed" and is rolled back too.
   */
  lemma UpdateRollbackOutcome(ops: seq<UpdateOp>, changeName: string)
    requires FirstWhere(ops, EmptyRequired).None?
    ensures var r := ExecuteUpdate(ops, changeName);
      && (r.report == MissingRollback ==> exists j | 0 <= j < |ops| :: !ops[j].hasRollback)
      && (r.report.Shown? && r.report.notice.status != Word("success") ==>
            (forall j | 0 <= j < |ops| :: ops[j].hasRollback) &&
            r.calls[|r.calls| - |ops|..] == UpdateRollbackCalls(r.ops))
  {
    var p := UpdateRun(ops, |ops|);
    var r := ExecuteUpdate(ops, changeName);
    if r.report.Shown? && r.report.notice.status != Word("success") {
      assert FirstWhere(p.ops, NoRollback).None?;
      forall j | 0 <= j < |ops|
        ensures ops[j].hasRollback
      {
        assert p.ops[j].hasRollback == ops[j].hasRollback;
      }
    }
    if r.report == MissingRollback {
      var m := FirstWhere(p.ops, NoRollback).value;
      assert p.ops[m].hasRollback == ops[m].hasRollback;
    }
  }
}
