/** The client page's local todo list: the two pieces of React state
    (`todos`, `inputValue`) as one immutable record, and each event handler as a
    pure transition on it. `Date.now()` becomes the `now` parameter. */
module Page {
  import opened JsString

  /** The page's own item shape: a numeric id taken from the clock, and the text. */
  datatype Todo = Todo(id: int, text: string)

  datatype State = State(todos: seq<Todo>, input: string)

  /** The state on first render: no items, empty input box. */
  function Initial(): State {
    State([], "")
  }

  /** What the add handler refuses: input that trims to the empty string. */
  predicate IsBlank(s: string) {
    Trim(s) == ""
  }

  /** The input box's change handler: replaces the text being typed and leaves
      the list alone. */
  function SetInput(st: State, value: string): (r: State)
    ensures r.todos == st.todos && r.input == value
  {
    st.(input := value)
  }

  /** `handleAddTodo`: blank input is ignored; otherwise one item stamped with
      the clock and holding the trimmed input is appended, and the box is cleared. */
  function AddTodo(st: State, now: int): (r: State)
    ensures IsBlank(st.input) ==> r == st
    ensures !IsBlank(st.input) ==>
              && |r.todos| == |st.todos| + 1
              && r.todos[..|st.todos|] == st.todos
              && r.todos[|st.todos|].id == now
              && r.todos[|st.todos|].text == Trim(st.input)
              && r.input == ""
  {
    if Trim(st.input) == "" then st
    else State(st.todos + [Todo(now, Trim(st.input))], "")
  }

  /** `handleKeyDown`: only the Enter key does anything, and it adds. */
  function KeyDown(st: State, key: string, now: int): (r: State)
    ensures key != "Enter" ==> r == st
  {
    if key == "Enter" then AddTodo(st, now) else st
  }

  /** Number of items carrying `id`; ids come from the clock, so there may be
      several. */
  function Count(ts: seq<Todo>, id: int): (n: nat)
    ensures n <= |ts|
  {
    if ts == [] then 0
    else (if ts[0].id == id then 1 else 0) + Count(ts[1..], id)
  }

  /** The list with every item carrying `id` dropped: the items whose id
      differs, in their original order. */
  function WithoutId(ts: seq<Todo>, id: int): (r: seq<Todo>)
    ensures forall i :: 0 <= i < |r| ==> r[i].id != id
    ensures |r| == |ts| - Count(ts, id)
  {
    if ts == [] then []
    else if ts[0].id != id then [ts[0]] + WithoutId(ts[1..], id)
      else WithoutId(ts[1..], id)
  }

  /** Deleting keeps every non-matching item with its multiplicity and drops
      every matching one. */
  lemma {:induction false} WithoutIdContents(ts: seq<Todo>, id: int)
    ensures forall t :: multiset(WithoutId(ts, id))[t] == if t.id == id then 0 else multiset(ts)[t]
    decreases |ts|
  {
    if ts != [] {
      WithoutIdContents(ts[1..], id);
      assert ts == [ts[0]] + ts[1..];
    }
  }

  /** `handleDeleteTodo`: drops every item with that id, keeps the input. The
      survivors are exactly the other items, with their multiplicities, in
      their original order. */
  function DeleteTodo(st: State, id: int): (r: State)
    ensures r.input == st.input
    ensures forall i :: 0 <= i < |r.todos| ==> r.todos[i].id != id
    ensures |r.todos| == |st.todos| - Count(st.todos, id)
    ensures forall t :: multiset(r.todos)[t] == if t.id == id then 0 else multiset(st.todos)[t]
    ensures IsSubsequence(r.todos, st.todos)
  {
    WithoutIdContents(st.todos, id);
    WithoutIdIsSubsequence(st.todos, id);
    st.(todos := WithoutId(st.todos, id))
  }

  /** `a` is `b` with some elements left out, order kept. */
  predicate IsSubsequence(a: seq<Todo>, b: seq<Todo>)
    decreases |b|
  {
    if a == [] then true
    else if b == [] then false
    else (a[0] == b[0] && IsSubsequence(a[1..], b[1..])) || IsSubsequence(a, b[1..])
  }

  /** Deleting keeps the surviving items in their original order. */
  lemma {:induction false} WithoutIdIsSubsequence(ts: seq<Todo>, id: int)
    ensures IsSubsequence(WithoutId(ts, id), ts)
    decreases |ts|
  {
    if ts != [] {
      WithoutIdIsSubsequence(ts[1..], id);
      var r := WithoutId(ts, id);
      if ts[0].id != id {
        assert r[0] == ts[0] && r[1..] == WithoutId(ts[1..], id);
      }
    }
  }

  /** No item matches exactly when the count is zero. */
  lemma {:induction false} CountZeroIffAbsent(ts: seq<Todo>, id: int)
    ensures Count(ts, id) == 0 <==> forall i :: 0 <= i < |ts| ==> ts[i].id != id
    decreases |ts|
  {
    if ts != [] {
      CountZeroIffAbsent(ts[1..], id);
      assert forall i :: 1 <= i < |ts| ==> ts[i] == ts[1..][i - 1];
    }
  }

  /** Deleting changes the list exactly when some item has that id. */
  lemma {:induction false} WithoutIdUnchangedIffAbsent(ts: seq<Todo>, id: int)
    ensures WithoutId(ts, id) == ts <==> Count(ts, id) == 0
    decreases |ts|
  {
    if ts != [] {
      WithoutIdUnchangedIffAbsent(ts[1..], id);
    }
  }

  /** Deleting the same id twice is deleting it once. */
  lemma WithoutIdIdempotent(ts: seq<Todo>, id: int)
    ensures WithoutId(WithoutId(ts, id), id) == WithoutId(ts, id)
  {
    var r := WithoutId(ts, id);
    CountZeroIffAbsent(r, id);
    WithoutIdUnchangedIffAbsent(r, id);
  }

  /** Deleting an id no item carries leaves the state as it was. */
  lemma DeleteAbsentIsNoOp(st: State, id: int)
    requires forall i :: 0 <= i < |st.todos| ==> st.todos[i].id != id
    ensures DeleteTodo(st, id) == st
  {
    CountZeroIffAbsent(st.todos, id);
    WithoutIdUnchangedIffAbsent(st.todos, id);
  }

  /** Deleting twice with the same id is deleting once. */
  lemma DeleteIdempotent(st: State, id: int)
    ensures DeleteTodo(DeleteTodo(st, id), id) == DeleteTodo(st, id)
  {
    WithoutIdIdempotent(st.todos, id);
  }

  /** Deletion distributes over appending one item. */
  lemma {:induction false} WithoutIdAppend(ts: seq<Todo>, t: Todo, id: int)
    ensures WithoutId(ts + [t], id) == WithoutId(ts, id) + WithoutId([t], id)
    decreases |ts|
  {
    if ts != [] {
      var h := ts[0];
      var front := if h.id != id then [h] else [];
      assert (ts + [t])[0] == h;
      assert (ts + [t])[1..] == ts[1..] + [t];
      assert WithoutId(ts + [t], id) == front + WithoutId(ts[1..] + [t], id);
      assert WithoutId(ts, id) == front + WithoutId(ts[1..], id);
      WithoutIdAppend(ts[1..], t, id);
      assert front + (WithoutId(ts[1..], id) + WithoutId([t], id))
          == (front + WithoutId(ts[1..], id)) + WithoutId([t], id);
    } else {
      assert ts + [t] == [t];
    }
  }

  /** Delete undoes an add when the clock reading was not already used as an
      id: the list returns to what it was before the add. */
  lemma DeleteUndoesAdd(st: State, now: int)
    requires !IsBlank(st.input)
    requires forall i :: 0 <= i < |st.todos| ==> st.todos[i].id != now
    ensures DeleteTodo(AddTodo(st, now), now).todos == st.todos
  {
    var t := Todo(now, Trim(st.input));
    assert AddTodo(st, now).todos == st.todos + [t];
    WithoutIdAppend(st.todos, t, now);
    assert WithoutId([t], now) == [];
    CountZeroIffAbsent(st.todos, now);
    WithoutIdUnchangedIffAbsent(st.todos, now);
  }

  /** The item shape the add handler guarantees: text present and already trimmed. */
  predicate ValidText(s: string) {
    s != "" && NoEdgeWhitespace(s)
  }

  /** Valid text is exactly text that is non-empty and its own trim. */
  lemma ValidTextIsTrimmed(s: string)
    ensures ValidText(s) <==> s != "" && Trim(s) == s
  {
    TrimFixedPoints(s);
  }

  /** Every listed item has valid text. */
  predicate WellFormed(st: State) {
    forall i :: 0 <= i < |st.todos| ==> ValidText(st.todos[i].text)
  }

  lemma InitialWellFormed()
    ensures WellFormed(Initial())
  {
  }

  /** An added item's text is non-empty and its own trim. */
  lemma AddedTextIsValid(st: State, now: int)
    requires !IsBlank(st.input)
    ensures ValidText(AddTodo(st, now).todos[|st.todos|].text)
  {
  }

  lemma AppendKeepsValid(ts: seq<Todo>, t: Todo)
    requires forall i :: 0 <= i < |ts| ==> ValidText(ts[i].text)
    requires ValidText(t.text)
    ensures forall i :: 0 <= i < |ts + [t]| ==> ValidText((ts + [t])[i].text)
  {
  }

  lemma AddPreservesWellFormed(st: State, now: int)
    requires WellFormed(st)
    ensures WellFormed(AddTodo(st, now))
  {
    if !IsBlank(st.input) {
      AddedTextIsValid(st, now);
      var t := Todo(now, Trim(st.input));
      assert AddTodo(st, now).todos == st.todos + [t];
      AppendKeepsValid(st.todos, t);
    }
  }

  lemma {:induction false} WithoutIdKeepsMembers(ts: seq<Todo>, id: int)
    ensures forall i :: 0 <= i < |WithoutId(ts, id)| ==> WithoutId(ts, id)[i] in ts
  {
    forall i | 0 <= i < |WithoutId(ts, id)|
      ensures WithoutId(ts, id)[i] in ts
    {
      var t := WithoutId(ts, id)[i];
      WithoutIdContents(ts, id);
      assert t in multiset(WithoutId(ts, id));
    }
  }

  lemma DeletePreservesWellFormed(st: State, id: int)
    requires WellFormed(st)
    ensures WellFormed(DeleteTodo(st, id))
  {
    WithoutIdKeepsMembers(st.todos, id);
  }

  lemma KeyDownPreservesWellFormed(st: State, key: string, now: int)
    requires WellFormed(st)
    ensures WellFormed(KeyDown(st, key, now))
  {
    AddPreservesWellFormed(st, now);
  }

  /** Pressing Enter is clicking the add button, and no other key changes anything. */
  lemma KeyDownRoutesEnter(st: State, key: string, now: int)
    ensures key == "Enter" ==> KeyDown(st, key, now) == AddTodo(st, now)
    ensures KeyDown(st, key, now) != st ==> key == "Enter" && !IsBlank(st.input)
  {
  }

  /** Everything the user can do on the page. */
  datatype Event =
    | Typed(value: string)
    | AddClicked(now: int)
    | KeyPressed(key: string, now: int)
    | DeleteClicked(id: int)

  /** One event routed to its handler. Typing never touches the list, a delete
      click never touches the input, and no event adds more than one item. */
  function Step(st: State, e: Event): (r: State)
    ensures e.Typed? ==> r.todos == st.todos
    ensures e.DeleteClicked? ==> r.input == st.input
    ensures |r.todos| <= |st.todos| + 1
  {
    match e
    case Typed(value) => SetInput(st, value)
    case AddClicked(now) => AddTodo(st, now)
    case KeyPressed(key, now) => KeyDown(st, key, now)
    case DeleteClicked(id) => DeleteTodo(st, id)
  }

  /** The events handled one after another, oldest first. The list can grow by
      at most one item per event. */
  function Run(st: State, events: seq<Event>): (r: State)
    ensures |r.todos| <= |st.todos| + |events|
    decreases |events|
  {
    if events == [] then st else Run(Step(st, events[0]), events[1..])
  }

  /** Handling two batches of events in turn is handling them all at once. */
  lemma {:induction false} RunConcat(st: State, first: seq<Event>, second: seq<Event>)
    ensures Run(st, first + second) == Run(Run(st, first), second)
    decreases |first|
  {
    if first == [] {
      assert first + second == second;
    } else {
      assert (first + second)[0] == first[0];
      assert (first + second)[1..] == first[1..] + second;
      RunConcat(Step(st, first[0]), first[1..], second);
    }
  }

  lemma StepPreservesWellFormed(st: State, e: Event)
    requires WellFormed(st)
    ensures WellFormed(Step(st, e))
  {
    match e
    case Typed(_) =>
    case AddClicked(now) => AddPreservesWellFormed(st, now);
    case KeyPressed(key, now) => KeyDownPreservesWellFormed(st, key, now);
    case DeleteClicked(id) => DeletePreservesWellFormed(st, id);
  }

  /** Whatever the user does, starting from the first render, every listed item
      has non-empty, trimmed text. */
  lemma {:induction false} RunPreservesWellFormed(st: State, events: seq<Event>)
    requires WellFormed(st)
    ensures WellFormed(Run(st, events))
    decreases |events|
  {
    if events != [] {
      StepPreservesWellFormed(st, events[0]);
      RunPreservesWellFormed(Step(st, events[0]), events[1..]);
    }
  }

  lemma ReachableWellFormed(events: seq<Event>)
    ensures WellFormed(Run(Initial(), events))
  {
    RunPreservesWellFormed(Initial(), events);
  }
}
