/**
 * The values behind the todo page: one record per rendered todo, the display
 * rule of the filter select, the two local-storage entries the page keeps in
 * step with the list, and what reading those entries back produces.
 */
module TodoModel {

  datatype Option<+T> = None | Some(value: T)

  /** One rendered todo: its text, whether it carries the `complete` class,
      whether it is displayed, and whether it carries the `fall` class
      (removal pending until its transition ends). */
  datatype Todo = Todo(text: string, complete: bool, visible: bool, falling: bool)

  /** The local-storage entries `todoContent` and `todoCompleteStatus`, as the
      arrays their JSON encodes; `None` when the key is absent. */
  datatype Storage = Storage(todoContent: Option<seq<string>>, todoCompleteStatus: Option<seq<int>>)

  const AllFilter: string := "all"
  const CompleteFilter: string := "complete"
  const IncompleteFilter: string := "incomplete"

  /** The three values the filter switch has a case for. */
  predicate IsFilterCase(filter: string) {
    filter == AllFilter || filter == CompleteFilter || filter == IncompleteFilter
  }

  /** A todo as `addTodo` creates it: not complete, displayed, not falling. */
  function NewTodo(text: string): Todo {
    Todo(text, false, true, false)
  }

  /** Whether one todo is displayed once the filter has run over it. The
      switch has no default case: any other value leaves the display as is. */
  function Shown(filter: string, t: Todo): bool {
    if filter == AllFilter then true
    else if filter == CompleteFilter then t.complete
    else if filter == IncompleteFilter then !t.complete
    else t.visible
  }

  function Show(filter: string, t: Todo): Todo {
    t.(visible := Shown(filter, t))
  }

  /** Every todo is displayed exactly as the filter rule says. */
  ghost predicate AgreesWithFilter(todos: seq<Todo>, filter: string) {
    forall i :: 0 <= i < |todos| ==> todos[i].visible == Shown(filter, todos[i])
  }

  /** The list after the filter has run over every todo. */
  function Filtered(todos: seq<Todo>, filter: string): (r: seq<Todo>)
    ensures |r| == |todos|
    ensures forall i :: 0 <= i < |todos| ==> r[i] == Show(filter, todos[i])
    ensures filter == AllFilter ==> forall i :: 0 <= i < |r| ==> r[i].visible
    ensures filter == CompleteFilter ==> forall i :: 0 <= i < |r| ==> (r[i].visible <==> r[i].complete)
    ensures filter == IncompleteFilter ==> forall i :: 0 <= i < |r| ==> (r[i].visible <==> !r[i].complete)
    ensures !IsFilterCase(filter) ==> r == todos
  {
    if todos == [] then [] else [Show(filter, todos[0])] + Filtered(todos[1..], filter)
  }

  /** The list with the `complete` class of todo `i` toggled. */
  function Flipped(todos: seq<Todo>, i: nat): seq<Todo>
    requires i < |todos|
  {
    todos[i := todos[i].(complete := !todos[i].complete)]
  }

  /** The status code persisted for one todo. */
  function StatusCode(t: Todo): int {
    if t.complete then 1 else 0
  }

  /** The `todoContent` array: the texts pushed one todo at a time. */
  function Texts(todos: seq<Todo>): (r: seq<string>)
    ensures |r| == |todos|
    ensures forall i :: 0 <= i < |todos| ==> r[i] == todos[i].text
  {
    if todos == [] then [] else Texts(todos[..|todos| - 1]) + [todos[|todos| - 1].text]
  }

  /** The `todoCompleteStatus` array: 1 for a complete todo, 0 otherwise. */
  function Codes(todos: seq<Todo>): (r: seq<int>)
    ensures |r| == |todos|
    ensures forall i :: 0 <= i < |todos| ==>
      (r[i] == 1 <==> todos[i].complete) && (r[i] == 0 <==> !todos[i].complete)
  {
    if todos == [] then [] else Codes(todos[..|todos| - 1]) + [StatusCode(todos[|todos| - 1])]
  }

  /** Both storage entries as the page writes them for a list. */
  function Serialize(todos: seq<Todo>): Storage {
    Storage(Some(Texts(todos)), Some(Codes(todos)))
  }

  /** Whether load marks stored todo `k` complete: `status[k] == 1`. An index
      past the end of the status array reads `undefined`, which is not 1. */
  predicate Marked(status: Option<seq<int>>, k: nat) {
    status.Some? && k < |status.value| && status.value[k] == 1
  }

  /** How many stored texts load turns into todos. None without `todoContent`
      (the name is then undeclared and the loop throws before it starts); only
      the first one when `todoCompleteStatus` is absent (the status array is
      then null, and indexing it throws right after the first todo is added);
      otherwise one per text, whatever the length of the status array. */
  function LoadCount(s: Storage): nat {
    match s.todoContent
    case None => 0
    case Some(texts) => if s.todoCompleteStatus.None? && |texts| > 1 then 1 else |texts|
  }

  /** The todos load appends, in order, in their final complete state. */
  function Decoded(s: Storage): seq<Todo> {
    seq(LoadCount(s), k requires 0 <= k < LoadCount(s) =>
      Todo(s.todoContent.value[k], Marked(s.todoCompleteStatus, k), true, false))
  }

  /** The last todo keeps the display it was given as a new, incomplete todo. */
  function LastShownAsNew(todos: seq<Todo>, filter: string): (r: seq<Todo>)
    requires |todos| > 0
    ensures |r| == |todos|
    ensures forall i :: 0 <= i < |todos| - 1 ==> r[i] == todos[i]
    ensures r[|r| - 1] == todos[|todos| - 1].(visible := filter != CompleteFilter)
  {
    var last := |todos| - 1;
    todos[last := todos[last].(visible := Shown(filter, NewTodo(todos[last].text)))]
  }

  /** Entry `i` of a list holding `todos` followed by what load appends from
      `s`: text, complete and falling flags as stored. */
  ghost predicate AppendedEntry(todos: seq<Todo>, s: Storage, r: seq<Todo>, i: nat)
    requires |r| == |todos| + LoadCount(s) && i < |r|
  {
    (i < |todos| ==>
      r[i].text == todos[i].text && r[i].complete == todos[i].complete && r[i].falling == todos[i].falling) &&
    (|todos| <= i ==>
      r[i].text == s.todoContent.value[i - |todos|] &&
      (r[i].complete <==> Marked(s.todoCompleteStatus, i - |todos|)) &&
      !r[i].falling)
  }

  lemma {:induction false} AppendedAt(todos: seq<Todo>, s: Storage, filter: string, i: nat)
    requires i < |todos| + LoadCount(s)
    ensures |Filtered(todos + Decoded(s), filter)| == |todos| + LoadCount(s)
    ensures AppendedEntry(todos, s, Filtered(todos + Decoded(s), filter), i)
  {
    var d := Decoded(s);
    var all := todos + d;
    var e := all[i];
    if |todos| <= i {
      assert e == d[i - |todos|];
      assert e == Todo(s.todoContent.value[i - |todos|], Marked(s.todoCompleteStatus, i - |todos|), true, false);
    } else {
      assert e == todos[i];
    }
    assert Filtered(all, filter)[i] == Show(filter, e);
  }

  /** The list load leaves behind: the loaded todos are appended and the
      filter has run over the whole list, except that the last loaded todo
      keeps the display it got as a new, incomplete todo, because its
      complete flag is set only after the filter ran. */
  function Loaded(todos: seq<Todo>, s: Storage, filter: string): (r: seq<Todo>)
    ensures |r| == |todos| + LoadCount(s)
    ensures LoadCount(s) == 0 ==> r == todos
    ensures forall i :: 0 <= i < |todos| ==>
      r[i].text == todos[i].text && r[i].complete == todos[i].complete && r[i].falling == todos[i].falling
    ensures forall i :: |todos| <= i < |r| ==>
      r[i].text == s.todoContent.value[i - |todos|] &&
      (r[i].complete <==> Marked(s.todoCompleteStatus, i - |todos|)) &&
      !r[i].falling
    ensures LoadCount(s) > 0 ==> forall i :: 0 <= i < |r| - 1 ==> r[i].visible == Shown(filter, r[i])
    ensures LoadCount(s) > 0 ==> r[|r| - 1].visible == (filter != CompleteFilter)
  {
    if LoadCount(s) == 0 then todos
    else
      var loaded := LastShownAsNew(Filtered(todos + Decoded(s), filter), filter);
      assert forall i {:trigger loaded[i]} :: 0 <= i < |loaded| ==> LoadedEntry(todos, s, filter, loaded, i) by {
        forall i | 0 <= i < |loaded|
          ensures LoadedEntry(todos, s, filter, loaded, i)
        {
          LoadedAt(todos, s, filter, i);
        }
      }
      loaded
  }

  /** What `Loaded` states about its entry `i`. */
  ghost predicate LoadedEntry(todos: seq<Todo>, s: Storage, filter: string, r: seq<Todo>, i: nat)
    requires |r| == |todos| + LoadCount(s) && i < |r|
  {
    AppendedEntry(todos, s, r, i) &&
    (i < |r| - 1 ==> r[i].visible == Shown(filter, r[i])) &&
    (i == |r| - 1 ==> r[i].visible == (filter != CompleteFilter))
  }

  lemma {:induction false} LoadedAt(todos: seq<Todo>, s: Storage, filter: string, i: nat)
    requires 0 < LoadCount(s) && i < |todos| + LoadCount(s)
    ensures |LastShownAsNew(Filtered(todos + Decoded(s), filter), filter)| == |todos| + LoadCount(s)
    ensures LoadedEntry(todos, s, filter, LastShownAsNew(Filtered(todos + Decoded(s), filter), filter), i)
  {
    AppendedAt(todos, s, filter, i);
    var all := todos + Decoded(s);
    assert Filtered(all, filter)[i] == Show(filter, all[i]);
  }

  /** The list after one round of the load loop that adds `x`: `x.text` is
      added as a new todo, the filter runs, then `x`'s complete flag is set. */
  function RoundEnd(start: seq<Todo>, x: Todo, filter: string): seq<Todo> {
    var added := Filtered(start + [NewTodo(x.text)], filter);
    if x.complete then Flipped(added, |added| - 1) else added
  }

  /** The list once the load loop has run `k` rounds, round by round. */
  function LoadedAfter(todos: seq<Todo>, s: Storage, filter: string, k: nat): seq<Todo>
    requires k <= LoadCount(s)
  {
    if k == 0 then todos
    else RoundEnd(LoadedAfter(todos, s, filter, k - 1),
                  Todo(s.todoContent.value[k - 1], Marked(s.todoCompleteStatus, k - 1), true, false), filter)
  }

  /** Running the filter twice over a todo is running it once. */
  lemma ShowTwice(filter: string, t: Todo)
    ensures Show(filter, Show(filter, t)) == Show(filter, t)
  {
  }

  /** Running the filter again over a displayed todo after its display was
      reset to that of a new todo gives what the first run gave. */
  lemma ShowAfterReset(filter: string, t: Todo)
    requires t.visible
    ensures Show(filter, Show(filter, t).(visible := Shown(filter, NewTodo(t.text)))) == Show(filter, t)
  {
  }

  /** The list before a round of the load loop, given the list `before` as
      it stood before the previous round (`first` when there was none). */
  function RoundStart(before: seq<Todo>, filter: string, first: bool): seq<Todo>
    requires !first ==> |before| > 0
  {
    if first then before else LastShownAsNew(Filtered(before, filter), filter)
  }

  lemma {:induction false} AddRoundAt(before: seq<Todo>, x: Todo, filter: string, first: bool, i: nat)
    requires x == Todo(x.text, x.complete, true, false)
    requires !first ==> |before| > 0 && before[|before| - 1].visible
    requires i <= |before|
    ensures |RoundEnd(RoundStart(before, filter, first), x, filter)| == |before| + 1
    ensures LastShownAsNew(Filtered(before + [x], filter), filter)[i] ==
            RoundEnd(RoundStart(before, filter, first), x, filter)[i]
  {
    var prev := RoundStart(before, filter, first);
    assert |prev| == |before|;
    var added := Filtered(prev + [NewTodo(x.text)], filter);
    if i < |before| {
      assert added[i] == Show(filter, prev[i]);
      assert Filtered(before + [x], filter)[i] == Show(filter, before[i]);
      if !first {
        if i == |before| - 1 {
          ShowAfterReset(filter, before[i]);
        } else {
          assert prev[i] == Show(filter, before[i]);
          ShowTwice(filter, before[i]);
        }
      }
    }
  }

  /** Adding a displayed todo `x` as a new todo, running the filter and then
      setting its complete flag gives the list in which the filter ran over
      `before + [x]` and `x` kept the display of a new todo. */
  lemma {:induction false} AddRound(before: seq<Todo>, x: Todo, filter: string, first: bool)
    requires x == Todo(x.text, x.complete, true, false)
    requires !first ==> |before| > 0 && before[|before| - 1].visible
    ensures LastShownAsNew(Filtered(before + [x], filter), filter) ==
            RoundEnd(RoundStart(before, filter, first), x, filter)
  {
    var next := LastShownAsNew(Filtered(before + [x], filter), filter);
    var want := RoundEnd(RoundStart(before, filter, first), x, filter);
    AddRoundAt(before, x, filter, first, 0);
    forall i | 0 <= i < |next|
      ensures next[i] == want[i]
    {
      AddRoundAt(before, x, filter, first, i);
    }
  }

  /** Running the load loop round by round ends in the list `Loaded`
      describes once all rounds have run. */
  lemma {:induction false} LoadedAfterRounds(todos: seq<Todo>, s: Storage, filter: string, k: nat)
    requires 0 < k <= LoadCount(s)
    ensures LoadedAfter(todos, s, filter, k) == LastShownAsNew(Filtered(todos + Decoded(s)[..k], filter), filter)
  {
    var d := Decoded(s);
    var before := todos + d[..k - 1];
    assert todos + d[..k] == before + [d[k - 1]];
    if k == 1 {
      assert before == todos;
    } else {
      LoadedAfterRounds(todos, s, filter, k - 1);
      assert before[|before| - 1] == d[k - 2];
    }
    AddRound(before, d[k - 1], filter, k == 1);
  }

  /** Once every round has run, the load loop has produced `Loaded`. */
  lemma {:induction false} LoadedAfterAll(todos: seq<Todo>, s: Storage, filter: string)
    ensures LoadedAfter(todos, s, filter, LoadCount(s)) == Loaded(todos, s, filter)
  {
    var n := LoadCount(s);
    if n > 0 {
      LoadedAfterRounds(todos, s, filter, n);
      assert Decoded(s)[..n] == Decoded(s);
    }
  }

  /** Two lists with the same texts and complete flags, in the same order,
      are stored alike, whatever their display and falling flags. */
  lemma {:induction false} SameEntriesSameStorage(a: seq<Todo>, b: seq<Todo>)
    requires |a| == |b|
    requires forall i :: 0 <= i < |a| ==> a[i].text == b[i].text && a[i].complete == b[i].complete
    ensures Serialize(a) == Serialize(b)
  {
    assert Texts(a) == Texts(b);
    assert Codes(a) == Codes(b);
  }

  /** Persisting a list and loading it into an empty page gives back the same
      texts with the same complete flags, in the same order, and the storage
      load leaves behind is the one it read. */
  lemma {:induction false} PersistThenLoad(list: seq<Todo>, filter: string)
    ensures var r := Loaded([], Serialize(list), filter);
      |r| == |list| &&
      (forall i :: 0 <= i < |list| ==> r[i].text == list[i].text && r[i].complete == list[i].complete) &&
      Serialize(r) == Serialize(list)
  {
    var s := Serialize(list);
    var r := Loaded([], s, filter);
    assert LoadCount(s) == |list|;
    forall i | 0 <= i < |list|
      ensures r[i].text == list[i].text && r[i].complete == list[i].complete
    {
      assert Marked(s.todoCompleteStatus, i) == list[i].complete;
    }
    SameEntriesSameStorage(r, list);
  }

  /** What `addTodo` leaves: one more todo, at the end, with the given text,
      not complete and not falling; the earlier todos keep their order, text,
      complete and falling flags; every display agrees with the filter. */
  lemma {:induction false} AddedAtEnd(todos: seq<Todo>, text: string, filter: string)
    ensures var r := Filtered(todos + [NewTodo(text)], filter);
      |r| == |todos| + 1 &&
      r[|todos|].text == text && !r[|todos|].complete && !r[|todos|].falling &&
      (forall j :: 0 <= j < |todos| ==>
        r[j].text == todos[j].text && r[j].complete == todos[j].complete && r[j].falling == todos[j].falling) &&
      AgreesWithFilter(r, filter)
  {
    var r := Filtered(todos + [NewTodo(text)], filter);
    assert r[|todos|] == Show(filter, NewTodo(text));
  }

  /** What toggling todo `i` leaves: only its complete flag differs, texts and
      falling flags are unchanged, and every display agrees with the filter. */
  lemma {:induction false} ToggledOne(todos: seq<Todo>, i: nat, filter: string)
    requires i < |todos|
    ensures var r := Filtered(Flipped(todos, i), filter);
      |r| == |todos| &&
      r[i].complete == !todos[i].complete &&
      (forall j :: 0 <= j < |todos| && j != i ==> r[j].complete == todos[j].complete) &&
      (forall j :: 0 <= j < |todos| ==> r[j].text == todos[j].text && r[j].falling == todos[j].falling) &&
      AgreesWithFilter(r, filter)
  {
  }

  /** Toggling the same todo twice, with the filter run after each toggle,
      gives back a list whose display already agreed with the filter. */
  lemma {:induction false} ToggleTwice(todos: seq<Todo>, i: nat, filter: string)
    requires i < |todos|
    requires AgreesWithFilter(todos, filter)
    ensures Filtered(Flipped(Filtered(Flipped(todos, i), filter), i), filter) == todos
  {
    var once := Filtered(Flipped(todos, i), filter);
    var twice := Filtered(Flipped(once, i), filter);
    forall j | 0 <= j < |todos|
      ensures twice[j] == todos[j]
    {
    }
  }

  /** Toggling the same todo twice, with the filter run after each toggle,
      gives the list with the filter run once, whatever the list was. */
  lemma {:induction false} ToggleTwiceFiltered(todos: seq<Todo>, i: nat, filter: string)
    requires i < |todos|
    ensures Filtered(Flipped(Filtered(Flipped(todos, i), filter), i), filter) == Filtered(todos, filter)
  {
    var once := Filtered(Flipped(todos, i), filter);
    var twice := Filtered(Flipped(once, i), filter);
    var want := Filtered(todos, filter);
    forall j | 0 <= j < |todos|
      ensures twice[j] == want[j]
    {
    }
  }

  /** Under the two status filters each todo is displayed by exactly one. */
  lemma {:induction false} StatusFiltersPartition(todos: seq<Todo>)
    ensures forall i :: 0 <= i < |todos| ==>
      Filtered(todos, CompleteFilter)[i].visible != Filtered(todos, IncompleteFilter)[i].visible
  {
  }

  /** Loading a complete todo last while the "complete" filter is selected
      leaves that todo hidden. */
  lemma LastLoadedStaysHidden()
    ensures Loaded([], Storage(Some(["a"]), Some([1])), CompleteFilter) == [Todo("a", true, false, false)]
  {
    var s := Storage(Some(["a"]), Some([1]));
    var r := Loaded([], s, CompleteFilter);
    assert |r| == 1;
  }

  /** The list load is evidently meant to leave: the loaded todos appended in
      their final complete state and the filter run over the whole list, so
      that every display agrees with the selected filter. */
  function LoadedAsIntended(todos: seq<Todo>, s: Storage, filter: string): (r: seq<Todo>)
    ensures |r| == |todos| + LoadCount(s)
    ensures forall i :: 0 <= i < |todos| ==>
      r[i].text == todos[i].text && r[i].complete == todos[i].complete && r[i].falling == todos[i].falling
    ensures forall i :: |todos| <= i < |r| ==>
      r[i].text == s.todoContent.value[i - |todos|] &&
      (r[i].complete <==> Marked(s.todoCompleteStatus, i - |todos|)) &&
      !r[i].falling
    ensures AgreesWithFilter(r, filter)
  {
    var filtered := Filtered(todos + Decoded(s), filter);
    assert forall i {:trigger filtered[i]} :: 0 <= i < |filtered| ==> AppendedEntry(todos, s, filtered, i) by {
      forall i | 0 <= i < |filtered|
        ensures AppendedEntry(todos, s, filtered, i)
      {
        AppendedAt(todos, s, filter, i);
      }
    }
    filtered
  }

  /** Under the intended load the same stored todo is displayed. */
  lemma LastLoadedShownAsIntended()
    ensures LoadedAsIntended([], Storage(Some(["a"]), Some([1])), CompleteFilter) == [Todo("a", true, true, false)]
  {
    var s := Storage(Some(["a"]), Some([1]));
    var r := LoadedAsIntended([], s, CompleteFilter);
    assert Decoded(s)[0] == Todo("a", true, true, false);
  }

  /** Entry `i` of the load as written against the load as intended. */
  lemma {:induction false} LoadedVersusIntendedAt(todos: seq<Todo>, s: Storage, filter: string, i: nat)
    requires 0 < LoadCount(s) && i < |todos| + LoadCount(s)
    ensures |Loaded(todos, s, filter)| == |LoadedAsIntended(todos, s, filter)|
    ensures i < |todos| + LoadCount(s) - 1 ==> Loaded(todos, s, filter)[i] == LoadedAsIntended(todos, s, filter)[i]
    ensures Loaded(todos, s, filter)[i].(visible := LoadedAsIntended(todos, s, filter)[i].visible) ==
            LoadedAsIntended(todos, s, filter)[i]
    ensures Show(filter, Loaded(todos, s, filter)[i]) == LoadedAsIntended(todos, s, filter)[i]
  {
    var all := todos + Decoded(s);
    var f := Filtered(all, filter);
    assert LoadedAsIntended(todos, s, filter) == f;
    assert Loaded(todos, s, filter) == LastShownAsNew(f, filter);
    if i == |f| - 1 {
      assert all[i] == Decoded(s)[i - |todos|];
      assert all[i].visible;
    } else {
      ShowTwice(filter, all[i]);
    }
  }

  /** The load as written and as intended differ at most in the display of
      the last loaded todo, and the next run of the filter repairs it. When
      nothing is loaded the filter does not run at all, so the list must
      already agree with it (as the empty list at page load does). */
  lemma {:induction false} LoadDiffersOnlyInLastDisplay(todos: seq<Todo>, s: Storage, filter: string)
    requires LoadCount(s) > 0 || AgreesWithFilter(todos, filter)
    ensures |Loaded(todos, s, filter)| == |LoadedAsIntended(todos, s, filter)|
    ensures forall i :: 0 <= i < |todos| + LoadCount(s) - 1 ==>
      Loaded(todos, s, filter)[i] == LoadedAsIntended(todos, s, filter)[i]
    ensures Filtered(Loaded(todos, s, filter), filter) == LoadedAsIntended(todos, s, filter)
  {
    var r := Loaded(todos, s, filter);
    var w := LoadedAsIntended(todos, s, filter);
    if LoadCount(s) == 0 {
      assert todos + Decoded(s) == todos;
      assert Filtered(r, filter) == w;
    } else {
      forall i | 0 <= i < |r|
        ensures Filtered(r, filter)[i] == w[i]
        ensures i < |r| - 1 ==> r[i] == w[i]
      {
        LoadedVersusIntendedAt(todos, s, filter, i);
      }
    }
  }
}
