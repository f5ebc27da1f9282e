/**
  The task store's rules on values: the records, the store's state as a
  snapshot (the ordered record list and the id counter), and each request
  handler as a function from a snapshot to the next snapshot and a reply.
  The class in module Store runs the same transitions in place.
 */
module Todos {
  import opened Wrappers
  import opened JsBuiltins

  datatype Todo = Todo(id: int, text: string, completed: bool)

  /** The body of an update request: each field is either absent or supplied. */
  datatype Patch = Patch(text: Option<string>, completed: Option<bool>)

  /** A rejected request: the HTTP status and the JSON body `{success, message}`. */
  datatype Failure = Failure(status: int, success: bool, message: string)

  const TextRequired := Failure(400, false, "Todo text is required")
  const NotFound := Failure(404, false, "Todo not found")

  datatype Result<T> = Ok(value: T) | Err(failure: Failure)

  /** The store's state: records in insertion order and the next id to hand out. */
  datatype Snapshot = Snapshot(todos: seq<Todo>, nextId: int)

  /** What one request does: the state after it and the reply it sends. */
  datatype Step = Step(next: Snapshot, reply: Result<Todo>)

  /** The state at process start. */
  const Seed := Snapshot(
    [ Todo(1, "Learn React Testing", false),
      Todo(2, "Write API tests", false),
      Todo(3, "Deploy application", false) ],
    4)

  predicate IdsDistinct(todos: seq<Todo>) {
    forall i, j :: 0 <= i < j < |todos| ==> todos[i].id != todos[j].id
  }

  /** Ids are positive, pairwise distinct and all below the counter, which is positive. */
  predicate WellFormed(s: Snapshot) {
    && 0 < s.nextId
    && (forall i :: 0 <= i < |s.todos| ==> 0 < s.todos[i].id < s.nextId)
    && IdsDistinct(s.todos)
  }

  lemma SeedWellFormed()
    ensures WellFormed(Seed)
    ensures |Seed.todos| == 3 && Seed.nextId == 4
    ensures forall k :: 0 <= k < |Seed.todos| ==> Seed.todos[k].id == k + 1 && !Seed.todos[k].completed
  {
  }

  // ---------------------------------------------------------------- lookup

  /** `todo.id === parseInt(id)`: NaN (`None`) matches no record. */
  predicate Matches(t: Todo, key: Option<int>) {
    key == Some(t.id)
  }

  predicate NoMatch(todos: seq<Todo>, key: Option<int>) {
    forall k :: 0 <= k < |todos| ==> !Matches(todos[k], key)
  }

  /** `findIndex`: the position of the first matching record, or -1 when none matches. */
  function Find(todos: seq<Todo>, key: Option<int>): (r: int)
    ensures -1 <= r < |todos|
    ensures r == -1 <==> NoMatch(todos, key)
    ensures r != -1 ==> Matches(todos[r], key) && forall k :: 0 <= k < r ==> !Matches(todos[k], key)
  {
    if todos == [] then -1
    else if Matches(todos[0], key) then 0
    else
      var r := Find(todos[1..], key);
      if r == -1 then -1 else r + 1
  }

  /** With distinct ids, the record found is the one carrying the key. */
  lemma FindUnique(todos: seq<Todo>, key: Option<int>, i: int)
    requires IdsDistinct(todos)
    requires 0 <= i < |todos| && Matches(todos[i], key)
    ensures Find(todos, key) == i
  {
  }

  // ---------------------------------------------------------------- create

  /** `!text || text.trim() === ''`: missing, null, empty or only white space. */
  predicate TextMissing(text: Option<string>): (r: bool)
    ensures r <==> text.None? || forall k :: 0 <= k < |text.value| ==> IsWhiteSpace(text.value[k])
  {
    text.None? || text.value == "" || Trim(text.value) == ""
  }

  /** POST /api/items */
  function Create(s: Snapshot, text: Option<string>): Step {
    if TextMissing(text) then Step(s, Err(TextRequired))
    else
      var t := Todo(s.nextId, Trim(text.value), false);
      Step(Snapshot(s.todos + [t], s.nextId + 1), Ok(t))
  }

  // ---------------------------------------------------------------- update

  /** `{...todo, text, completed}` where each field is replaced only when supplied. */
  function Merge(t: Todo, p: Patch): (r: Todo)
    ensures r.id == t.id
    ensures p.text.Some? ==> r.text == p.text.value
    ensures p.text.None? ==> r.text == t.text
    ensures p.completed.Some? ==> r.completed == p.completed.value
    ensures p.completed.None? ==> r.completed == t.completed
  {
    Todo(t.id, p.text.GetOr(t.text), p.completed.GetOr(t.completed))
  }

  /** Applying the same partial update twice is applying it once; an empty one changes nothing. */
  lemma MergeIdempotent(t: Todo, p: Patch)
    ensures Merge(Merge(t, p), p) == Merge(t, p)
    ensures Merge(t, Patch(None, None)) == t
  {
  }

  /** PUT /api/items/:id */
  function Update(s: Snapshot, id: string, p: Patch): Step {
    var i := Find(s.todos, ParseInt(id));
    if i == -1 then Step(s, Err(NotFound))
    else
      var t := Merge(s.todos[i], p);
      Step(Snapshot(s.todos[i := t], s.nextId), Ok(t))
  }

  // ---------------------------------------------------------------- delete

  /** DELETE /api/items/:id; the reply carries the removed record. */
  function Delete(s: Snapshot, id: string): Step {
    var i := Find(s.todos, ParseInt(id));
    if i == -1 then Step(s, Err(NotFound))
    else Step(Snapshot(s.todos[..i] + s.todos[i + 1..], s.nextId), Ok(s.todos[i]))
  }

  // ---------------------------------------------------------------- properties of one request

  /** Create fails exactly on missing or all-white-space text, and then changes nothing. */
  lemma CreateRejectsIff(s: Snapshot, text: Option<string>)
    ensures Create(s, text).reply.Err? <==>
              text.None? || forall k :: 0 <= k < |text.value| ==> IsWhiteSpace(text.value[k])
    ensures Create(s, text).reply.Err? ==> Create(s, text) == Step(s, Err(TextRequired))
  {
  }

  /** Create on present text stores it trimmed under the counter's id, as the last record. */
  lemma CreateAppends(s: Snapshot, text: Option<string>)
    requires !TextMissing(text)
    ensures Create(s, text).reply == Ok(Todo(s.nextId, Trim(text.value), false))
    ensures Create(s, text).next == Snapshot(s.todos + [Create(s, text).reply.value], s.nextId + 1)
    ensures var t := Create(s, text).reply.value; t.text != "" && Trim(t.text) == t.text
    ensures WellFormed(s) ==>
              forall k :: 0 <= k < |s.todos| ==> s.todos[k].id < Create(s, text).reply.value.id
  {
    var t := Todo(s.nextId, Trim(text.value), false);
    assert Create(s, text) == Step(Snapshot(s.todos + [t], s.nextId + 1), Ok(t));
    TrimIdempotent(text.value);
  }

  /** Appending a record that takes the counter's value, and bumping the counter, keeps ids well formed. */
  lemma AppendKeepsWellFormed(s: Snapshot, t: Todo)
    requires WellFormed(s) && t.id == s.nextId
    ensures WellFormed(Snapshot(s.todos + [t], s.nextId + 1))
  {
    var all := s.todos + [t];
    forall j, k | 0 <= j < k < |all| ensures all[j].id != all[k].id {
      assert all[j] == s.todos[j];
      if k < |s.todos| {
        assert all[k] == s.todos[k];
      }
    }
  }

  lemma CreateKeepsWellFormed(s: Snapshot, text: Option<string>)
    requires WellFormed(s)
    ensures WellFormed(Create(s, text).next)
    ensures Create(s, text).next.nextId >= s.nextId
  {
    if !TextMissing(text) {
      AppendKeepsWellFormed(s, Todo(s.nextId, Trim(text.value), false));
    }
  }

  /** Two creates with the same text make two records with increasing ids: create is not idempotent. */
  lemma CreateTwiceDistinct(s: Snapshot, text: Option<string>)
    requires !TextMissing(text)
    ensures var first := Create(s, text);
            var second := Create(first.next, text);
            && first.reply.Ok? && second.reply.Ok?
            && first.reply.value.id < second.reply.value.id
            && first.reply.value != second.reply.value
            && |second.next.todos| == |s.todos| + 2
  {
  }

  /** Update and delete fail exactly when no record has the parsed id, and then change nothing. */
  lemma NotFoundIffNoMatch(s: Snapshot, id: string, p: Patch)
    ensures Update(s, id, p).reply.Err? <==> NoMatch(s.todos, ParseInt(id))
    ensures Delete(s, id).reply.Err? <==> NoMatch(s.todos, ParseInt(id))
    ensures Update(s, id, p).reply.Err? ==> Update(s, id, p) == Step(s, Err(NotFound))
    ensures Delete(s, id).reply.Err? ==> Delete(s, id) == Step(s, Err(NotFound))
  {
  }

  /** A path id written as a number no record carries (such as 99999) is not found. */
  lemma UnknownNumberNotFound(s: Snapshot, n: nat, p: Patch)
    requires forall k :: 0 <= k < |s.todos| ==> s.todos[k].id != n
    ensures Update(s, DecimalString(n), p) == Step(s, Err(NotFound))
    ensures Delete(s, DecimalString(n)) == Step(s, Err(NotFound))
  {
    ParseIntOfNumber(n);
  }

  /** A path id that is not a number (such as "invalid-id") parses to NaN and is not found. */
  lemma NonNumericIdNotFound(s: Snapshot, id: string, p: Patch)
    requires id != [] && !IsWhiteSpace(id[0])
    requires id[0] != '+' && id[0] != '-' && !IsDecimalDigit(id[0])
    ensures Update(s, id, p) == Step(s, Err(NotFound))
    ensures Delete(s, id) == Step(s, Err(NotFound))
  {
    ParseIntNoDigits(id);
  }

  /** Update of a stored id merges the patch into that record in place and returns it. */
  lemma UpdateMergesInPlace(s: Snapshot, id: string, p: Patch, i: int)
    requires WellFormed(s)
    requires 0 <= i < |s.todos| && Matches(s.todos[i], ParseInt(id))
    ensures Update(s, id, p).reply == Ok(Merge(s.todos[i], p))
    ensures var next := Update(s, id, p).next;
            && next.nextId == s.nextId
            && |next.todos| == |s.todos|
            && next.todos[i] == Update(s, id, p).reply.value
            && next.todos[i].id == s.todos[i].id
            && forall k :: 0 <= k < |s.todos| && k != i ==> next.todos[k] == s.todos[k]
  {
    FindUnique(s.todos, ParseInt(id), i);
  }

  lemma UpdateKeepsWellFormed(s: Snapshot, id: string, p: Patch)
    requires WellFormed(s)
    ensures WellFormed(Update(s, id, p).next)
    ensures Update(s, id, p).next.nextId == s.nextId
  {
  }

  /** Delete of a stored id returns that record and removes exactly it, keeping the order. */
  lemma DeleteRemovesMatch(s: Snapshot, id: string, i: int)
    requires WellFormed(s)
    requires 0 <= i < |s.todos| && Matches(s.todos[i], ParseInt(id))
    ensures Delete(s, id).reply == Ok(s.todos[i])
    ensures Delete(s, id).next == Snapshot(s.todos[..i] + s.todos[i + 1..], s.nextId)
    ensures |Delete(s, id).next.todos| == |s.todos| - 1
    ensures NoMatch(Delete(s, id).next.todos, ParseInt(id))
  {
    FindUnique(s.todos, ParseInt(id), i);
    RemoveAtShifts(s.todos, i);
  }

  /** Removing position `i` shifts every later record down by one. */
  lemma RemoveAtShifts(todos: seq<Todo>, i: int)
    requires 0 <= i < |todos|
    ensures var rest := todos[..i] + todos[i + 1..];
            && |rest| == |todos| - 1
            && (forall k :: 0 <= k < i ==> rest[k] == todos[k])
            && (forall k :: i <= k < |rest| ==> rest[k] == todos[k + 1])
  {
  }

  /** Removing one record keeps the ids well formed. */
  lemma RemoveAtKeepsWellFormed(s: Snapshot, i: int)
    requires WellFormed(s) && 0 <= i < |s.todos|
    ensures WellFormed(Snapshot(s.todos[..i] + s.todos[i + 1..], s.nextId))
  {
    RemoveAtShifts(s.todos, i);
    var rest := s.todos[..i] + s.todos[i + 1..];
    forall j, k | 0 <= j < k < |rest| ensures rest[j].id != rest[k].id {
      var j' := if j < i then j else j + 1;
      var k' := if k < i then k else k + 1;
      assert rest[j] == s.todos[j'] && rest[k] == s.todos[k'];
    }
  }

  lemma DeleteKeepsWellFormed(s: Snapshot, id: string)
    requires WellFormed(s)
    ensures WellFormed(Delete(s, id).next)
    ensures Delete(s, id).next.nextId == s.nextId
  {
    var i := Find(s.todos, ParseInt(id));
    if i == -1 {
      assert Delete(s, id).next == s;
    } else {
      RemoveAtKeepsWellFormed(s, i);
      assert Delete(s, id).next == Snapshot(s.todos[..i] + s.todos[i + 1..], s.nextId);
    }
  }

  /** A second delete of the same id is not found and changes nothing. */
  lemma DeleteTwiceNotFound(s: Snapshot, id: string)
    requires WellFormed(s)
    ensures var first := Delete(s, id);
            Delete(first.next, id) == Step(first.next, Err(NotFound))
  {
    var i := Find(s.todos, ParseInt(id));
    if i != -1 {
      DeleteRemovesMatch(s, id, i);
    }
  }

  /** Unlike create, update stores the text it is given even when that text is blank. */
  lemma UpdateCanStoreBlankText()
    ensures Update(Seed, "1", Patch(Some("   "), None)).reply == Ok(Todo(1, "   ", false))
  {
    ParseIntOfNumber(1);
    SeedWellFormed();
    UpdateMergesInPlace(Seed, "1", Patch(Some("   "), None), 0);
  }

  /** The path id `${n}` parses back to `n`. */
  lemma ParseIntOfNumber(n: nat)
    ensures ParseInt(DecimalString(n)) == Some(n)
  {
    ParseIntOfDecimal(n, "");
    assert DecimalString(n) + "" == DecimalString(n);
  }

  // ---------------------------------------------------------------- sequences of requests

  datatype Op = CreateOp(text: Option<string>) | UpdateOp(id: string, patch: Patch) | DeleteOp(id: string)

  function Apply(s: Snapshot, op: Op): Step {
    match op
    case CreateOp(text) => Create(s, text)
    case UpdateOp(id, p) => Update(s, id, p)
    case DeleteOp(id) => Delete(s, id)
  }

  /** The state after serving `ops` one after another. */
  function Run(s: Snapshot, ops: seq<Op>): Snapshot
    decreases |ops|
  {
    if ops == [] then s else Run(Apply(s, ops[0]).next, ops[1..])
  }

  /** The ids handed out by the successful creates among `ops`, in order. */
  function Issued(s: Snapshot, ops: seq<Op>): seq<int>
    decreases |ops|
  {
    if ops == [] then []
    else
      var st := Apply(s, ops[0]);
      (if ops[0].CreateOp? && st.reply.Ok? then [st.reply.value.id] else []) + Issued(st.next, ops[1..])
  }

  /** Only a successful create moves the counter, by one, and its record takes the old value. */
  lemma ApplyCounter(s: Snapshot, op: Op)
    ensures var st := Apply(s, op);
            && st.next.nextId == (if op.CreateOp? && st.reply.Ok? then s.nextId + 1 else s.nextId)
            && (op.CreateOp? && st.reply.Ok? ==> st.reply.value.id == s.nextId)
  {
  }

  /** Every request keeps ids positive, distinct and below the counter. */
  lemma {:induction false} RunKeepsWellFormed(s: Snapshot, ops: seq<Op>)
    requires WellFormed(s)
    ensures WellFormed(Run(s, ops))
    decreases |ops|
  {
    if ops != [] {
      match ops[0] {
        case CreateOp(text) => CreateKeepsWellFormed(s, text);
        case UpdateOp(id, p) => UpdateKeepsWellFormed(s, id, p);
        case DeleteOp(id) => DeleteKeepsWellFormed(s, id);
      }
      RunKeepsWellFormed(Apply(s, ops[0]).next, ops[1..]);
    }
  }

  /**
    Ids are never reused, even after a delete: the ids handed out along any
    sequence of requests strictly increase, start at the counter's value and
    stay below its final value, which never goes down.
   */
  lemma {:induction false} IssuedIdsIncrease(s: Snapshot, ops: seq<Op>)
    ensures s.nextId <= Run(s, ops).nextId
    ensures IncreasingWithin(Issued(s, ops), s.nextId, Run(s, ops).nextId)
    decreases |ops|
  {
    if ops != [] {
      var st := Apply(s, ops[0]);
      var created := ops[0].CreateOp? && st.reply.Ok?;
      var tail := Issued(st.next, ops[1..]);
      IssuedIdsIncrease(st.next, ops[1..]);
      ApplyCounter(s, ops[0]);
      assert Run(s, ops) == Run(st.next, ops[1..]);
      assert Issued(s, ops) == (if created then [s.nextId] else []) + tail;
      IncreasingAfter(created, s.nextId, tail, st.next.nextId, Run(s, ops).nextId);
    }
  }

  /** `ids` strictly increase and all lie in `[lo, hi)`. */
  predicate IncreasingWithin(ids: seq<int>, lo: int, hi: int) {
    && (forall k :: 0 <= k < |ids| ==> lo <= ids[k] < hi)
    && (forall j, k :: 0 <= j < k < |ids| ==> ids[j] < ids[k])
  }

  /**
    Putting `x` (when `add`) in front of increasing values in `[lo, hi)`, with
    `lo` one past `x` exactly when `x` is added, keeps them increasing in `[x, hi)`.
   */
  lemma IncreasingAfter(add: bool, x: int, tail: seq<int>, lo: int, hi: int)
    requires lo == (if add then x + 1 else x) && lo <= hi
    requires IncreasingWithin(tail, lo, hi)
    ensures x <= hi
    ensures IncreasingWithin((if add then [x] else []) + tail, x, hi)
  {
  }

  // The scenario below works for any text that is already trimmed, such as "buy milk".

  predicate IsTrimmedText(text: string) {
    text != [] && !IsWhiteSpace(text[0]) && !IsWhiteSpace(text[|text| - 1])
  }

  /** The seed with a fourth record appended and the counter at 5. */
  function SeedPlus(t: Todo): Snapshot {
    Snapshot(Seed.todos + [t], 5)
  }

  lemma CreateOnSeed(text: string)
    requires IsTrimmedText(text)
    ensures Create(Seed, Some(text)) == Step(SeedPlus(Todo(4, text, false)), Ok(Todo(4, text, false)))
  {
    TrimOfTrimmed(text);
    CreateAppends(Seed, Some(text));
  }

  /** The path id `"4"` is the number 4. */
  lemma ParseIntOfFour()
    ensures ParseInt("4") == Some(4)
  {
    ParseIntOfNumber(4);
    assert DecimalString(4) == "4";
  }

  lemma CompleteFourth(text: string)
    ensures Update(SeedPlus(Todo(4, text, false)), "4", Patch(None, Some(true)))
         == Step(SeedPlus(Todo(4, text, true)), Ok(Todo(4, text, true)))
  {
    var before := SeedPlus(Todo(4, text, false));
    SeedWellFormed();
    ParseIntOfFour();
    AppendKeepsWellFormed(Seed, Todo(4, text, false));
    UpdateMergesInPlace(before, "4", Patch(None, Some(true)), 3);
    assert before.todos[3 := Todo(4, text, true)] == SeedPlus(Todo(4, text, true)).todos;
  }

  lemma DeleteFourth(t: Todo)
    requires t.id == 4
    ensures Delete(SeedPlus(t), "4") == Step(Snapshot(Seed.todos, 5), Ok(t))
  {
    var before := SeedPlus(t);
    SeedWellFormed();
    ParseIntOfFour();
    AppendKeepsWellFormed(Seed, t);
    DeleteRemovesMatch(before, "4", 3);
    assert before.todos[..3] + before.todos[4..] == Seed.todos;
  }

  /**
    From the seed: creating a task (say "buy milk") gets id 4, marking it
    completed keeps its text, and deleting it returns it and leaves the seed
    records again.
   */
  lemma EndToEnd(text: string)
    requires IsTrimmedText(text)
    ensures var c := Create(Seed, Some(text));
            && c.reply == Ok(Todo(4, text, false))
            && var u := Update(c.next, "4", Patch(None, Some(true)));
            && u.reply == Ok(Todo(4, text, true))
            && var d := Delete(u.next, "4");
            && d.reply == Ok(Todo(4, text, true))
            && d.next == Snapshot(Seed.todos, 5)
  {
    CreateOnSeed(text);
    CompleteFourth(text);
    DeleteFourth(Todo(4, text, true));
  }
}
