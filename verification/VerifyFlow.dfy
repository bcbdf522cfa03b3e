/** The reducer of the seed-phrase verification screen. */
module VerifyFlow {
  import opened Basics
  import opened SeedWords

  datatype Status = Collecting | Correct | Incorrect

  datatype State = State(status: Status, grid: Grid, selected: seq<int>, attempts: nat)

  datatype Event =
    | Select(index: int)
    | Deselect(index: int)
    | Check
    | Reset(realWords: seq<string>, gridSize: int, randomSeed: int, allWords: seq<string>)

  function Init(realWords: seq<string>, gridSize: int, randomSeed: int, allWords: seq<string>)
    : Result<State, GridError>
  {
    match BuildGrid(realWords, gridSize, randomSeed, allWords)
    case Err(e) => Err(e)
    case Ok(grid) => Ok(State(Collecting, grid, [], 0))
  }

  /** Compared in order: the i-th click must be the cell of the i-th word. */
  predicate IsGridSelectionCorrect(grid: Grid, selected: seq<int>) {
    && |selected| == |grid.correctIndices|
    && forall i :: 0 <= i < |selected| ==> selected[i] == grid.correctIndices[i]
  }

  function IndexOf(s: seq<int>, x: int): (i: int)
    ensures if x in s then 0 <= i < |s| && s[i] == x && x !in s[..i] else i == -1
  {
    if s == [] then -1
    else
      var i := IndexOf(s[..|s| - 1], x);
      assert s == s[..|s| - 1] + [s[|s| - 1]];
      if i != -1 then i else if s[|s| - 1] == x then |s| - 1 else -1
  }

  /** A RESET whose grid cannot be built throws; the caller then keeps its state. */
  function Reduce(state: State, event: Event): Result<State, GridError> {
    if event.Reset? then Init(event.realWords, event.gridSize, event.randomSeed, event.allWords)
    else if state.status != Collecting then Ok(state)
    else match event
      case Select(index) =>
        if index in state.selected || index < 0 || index >= |state.grid.words| then Ok(state)
        else Ok(state.(selected := state.selected + [index]))
      case Deselect(index) =>
        var i := IndexOf(state.selected, index);
        if i == -1 then Ok(state)
        else Ok(state.(selected := state.selected[..i] + state.selected[i + 1..]))
      case Check =>
        if |state.selected| != |state.grid.correctIndices| then Ok(state)
        else Ok(state.(status := if IsGridSelectionCorrect(state.grid, state.selected) then Correct else Incorrect,
                       attempts := state.attempts + 1))
  }

  /** A screen: the reducer's state, and the phrase its grid was built for. */
  datatype Screen = Screen(state: State, phrase: seq<string>)

  function Handle(s: Screen, event: Event): Screen {
    match Reduce(s.state, event)
    case Err(_) => s
    case Ok(state) => Screen(state, if event.Reset? then event.realWords else s.phrase)
  }

  function Run(s: Screen, events: seq<Event>): Screen {
    if events == [] then s else Handle(Run(s, events[..|events| - 1]), events[|events| - 1])
  }

  /** The selected cells, read in order of selection. */
  function Spelled(s: State): seq<string>
    requires forall i :: 0 <= i < |s.selected| ==> 0 <= s.selected[i] < |s.grid.words|
  {
    seq(|s.selected|, i requires 0 <= i < |s.selected| => s.grid.words[s.selected[i]])
  }

  ghost predicate Good(s: Screen) {
    var state := s.state;
    && ShowsPhrase(state.grid, s.phrase)
    && (Distinct(s.phrase) ==> Unambiguous(state.grid.words, s.phrase))
    && Distinct(state.selected)
    && (forall i :: 0 <= i < |state.selected| ==> 0 <= state.selected[i] < |state.grid.words|)
    && state.attempts == (if state.status == Collecting then 0 else 1)
    && (state.status == Correct <==> state.status != Collecting && IsGridSelectionCorrect(state.grid, state.selected))
    && (state.status != Collecting ==> |state.selected| == |s.phrase|)
    && (state.status == Correct ==> Spelled(state) == s.phrase)
  }

  lemma InitGood(realWords: seq<string>, gridSize: int, randomSeed: int, allWords: seq<string>)
    ensures var init := Init(realWords, gridSize, randomSeed, allWords);
            init.Ok? ==> Good(Screen(init.value, realWords))
  {
    GridShowsPhrase(realWords, gridSize, randomSeed, allWords);
    UnambiguousExactly(realWords, gridSize, randomSeed, allWords);
  }

  /** A screen opens exactly when a grid can be built: collecting, nothing selected, no attempt made. */
  lemma InitExactly(realWords: seq<string>, gridSize: int, randomSeed: int, allWords: seq<string>)
    ensures var init := Init(realWords, gridSize, randomSeed, allWords);
            && (init.Ok? <==> |realWords| <= gridSize <= |realWords| + |Without(allWords, realWords)|)
            && (init == Err(GridTooSmall) <==> gridSize < |realWords|)
            && (init.Ok? ==> init.value == State(Collecting, init.value.grid, [], 0)
                             && BuildGrid(realWords, gridSize, randomSeed, allWords) == Ok(init.value.grid))
  {
    GridShowsPhrase(realWords, gridSize, randomSeed, allWords);
  }

  lemma CheckGood(s: Screen)
    requires Good(s)
    ensures Good(Handle(s, Check))
  {
    var s' := Handle(s, Check);
    if s'.state.status == Correct && s.state.status == Collecting {
      assert Spelled(s'.state) == s.phrase;
    }
  }

  lemma HandleGood(s: Screen, event: Event)
    requires Good(s)
    ensures Good(Handle(s, event))
  {
    match event
    case Reset(realWords, gridSize, randomSeed, allWords) =>
      InitGood(realWords, gridSize, randomSeed, allWords);
    case Check => CheckGood(s);
    case _ =>
  }

  /**
   Over every run of events: the selection is distinct and in range, there has
   been one attempt exactly in a terminal status, and 'correct' implies that the
   selected cells spell the phrase in order.
   */
  lemma {:induction false} RunGood(realWords: seq<string>, gridSize: int, randomSeed: int, allWords: seq<string>,
                                   events: seq<Event>)
    ensures var init := Init(realWords, gridSize, randomSeed, allWords);
            init.Ok? ==> Good(Run(Screen(init.value, realWords), events))
  {
    var init := Init(realWords, gridSize, randomSeed, allWords);
    if events == [] {
      InitGood(realWords, gridSize, randomSeed, allWords);
    } else if init.Ok? {
      RunGood(realWords, gridSize, randomSeed, allWords, events[..|events| - 1]);
      HandleGood(Run(Screen(init.value, realWords), events[..|events| - 1]), events[|events| - 1]);
    }
  }

  /** Deselecting takes a cell out and keeps the others in order; what is not selected it leaves alone. */
  lemma DeselectExactly(s: Screen, before: seq<int>, index: int, after: seq<int>)
    requires s.state.status == Collecting
    ensures s.state.selected == before + [index] + after && index !in before ==>
              Handle(s, Deselect(index)) == s.(state := s.state.(selected := before + after))
    ensures index !in s.state.selected ==> Handle(s, Deselect(index)) == s
  {
    var selected := s.state.selected;
    if selected == before + [index] + after && index !in before {
      FirstIndexOf(before, index, after);
      AroundFirst(before, index, after);
      assert Reduce(s.state, Deselect(index)) == Ok(s.state.(selected := before + after));
    }
  }

  lemma AroundFirst(before: seq<int>, x: int, after: seq<int>)
    ensures var s := before + [x] + after; s[..|before|] == before && s[|before| + 1..] == after
  {
  }

  lemma FirstIndexOf(before: seq<int>, x: int, after: seq<int>)
    requires x !in before
    ensures IndexOf(before + [x] + after, x) == |before|
  {
    var s := before + [x] + after;
    var i := IndexOf(s, x);
    assert s[|before|] == x && forall k :: 0 <= k < |before| ==> s[k] == before[k];
    forall k | 0 <= k < i ensures s[k] != x {
      assert s[k] in s[..i];
    }
  }

  /** Selecting appends a cell of the grid that is not selected yet, and nothing else. */
  lemma SelectExactly(s: Screen, index: int)
    requires s.state.status == Collecting
    ensures var s' := Handle(s, Select(index));
            if 0 <= index < |s.state.grid.words| && index !in s.state.selected
            then s' == s.(state := s.state.(selected := s.state.selected + [index])) else s' == s
  {
  }

  /** Clicking a cell and taking it back changes nothing. */
  lemma DeselectUndoesSelect(s: Screen, index: int)
    requires s.state.status == Collecting && index !in s.state.selected
    ensures Run(s, [Select(index), Deselect(index)]) == s
  {
    var events := [Select(index), Deselect(index)];
    var selected, s' := s.state.selected, Handle(s, Select(index));
    assert events[..1] == [Select(index)] && events[..1][..0] == [];
    assert Run(s, events[..1][..0]) == s;
    assert Run(s, events[..1]) == s';
    assert Run(s, events) == Handle(s', Deselect(index));
    assert selected + [index] + [] == selected + [index] && selected + [] == selected;
    SelectExactly(s, index);
    DeselectExactly(s', selected, index, []);
  }

  /** After a verdict nothing but a reset changes anything; a reset that succeeds forgets everything before it. */
  lemma {:induction false} OnlyResetLeavesVerdict(s: Screen, events: seq<Event>)
    requires s.state.status != Collecting && forall k :: 0 <= k < |events| ==> !events[k].Reset?
    ensures Run(s, events) == s
  {
    if events != [] {
      OnlyResetLeavesVerdict(s, events[..|events| - 1]);
    }
  }

  lemma ResetForgets(s: Screen, events: seq<Event>, e: Event)
    requires e.Reset?
    ensures var init := Init(e.realWords, e.gridSize, e.randomSeed, e.allWords);
            Run(s, events + [e]) == if init.Ok? then Screen(init.value, e.realWords) else Run(s, events)
  {
    assert (events + [e])[..|events|] == events;
  }

  // ----- What is checked: cells, and when that amounts to words -----

  /** A choice of n different cells, in order. */
  ghost predicate Selection(grid: Grid, selected: seq<int>, n: nat) {
    && |selected| == n && Distinct(selected)
    && forall i :: 0 <= i < n ==> 0 <= selected[i] < |grid.words|
  }

  ghost predicate Spells(grid: Grid, selected: seq<int>, phrase: seq<string>)
    requires Selection(grid, selected, |phrase|)
  {
    forall i :: 0 <= i < |phrase| ==> grid.words[selected[i]] == phrase[i]
  }

  function Clicks(selected: seq<int>): (events: seq<Event>)
    ensures |events| == |selected|
  {
    seq(|selected|, i requires 0 <= i < |selected| => Select(selected[i]))
  }

  /** Clicking different cells one after the other selects exactly these. */
  lemma {:induction false} ClicksSelect(s: Screen, selected: seq<int>)
    requires s.state.status == Collecting && s.state.selected == [] && Selection(s.state.grid, selected, |selected|)
    ensures Run(s, Clicks(selected)) == s.(state := s.state.(selected := selected))
  {
    if selected != [] {
      var k := |selected| - 1;
      ClicksSelect(s, selected[..k]);
      assert Clicks(selected)[..k] == Clicks(selected[..k]);
      assert selected == selected[..k] + [selected[k]];
    }
  }

  /** Where clicking these cells and then checking leads. */
  function Verdict(s: Screen, selected: seq<int>): Status {
    Run(s, Clicks(selected) + [Check]).state.status
  }

  lemma VerdictIsComparison(s: Screen, selected: seq<int>)
    requires s.state.status == Collecting && s.state.selected == []
    requires Selection(s.state.grid, selected, |s.state.grid.correctIndices|)
    ensures Verdict(s, selected) == if IsGridSelectionCorrect(s.state.grid, selected) then Correct else Incorrect
  {
    ClicksSelect(s, selected);
    assert (Clicks(selected) + [Check])[..|selected|] == Clicks(selected);
  }

  /** With one cell per word, comparing cells is comparing words. */
  lemma UnambiguousSpelling(grid: Grid, selected: seq<int>, phrase: seq<string>)
    requires ShowsPhrase(grid, phrase) && Unambiguous(grid.words, phrase) && Selection(grid, selected, |phrase|)
    ensures IsGridSelectionCorrect(grid, selected) <==> Spells(grid, selected, phrase)
  {
    if Spells(grid, selected, phrase) {
      forall i | 0 <= i < |phrase| ensures selected[i] == grid.correctIndices[i] {
        assert grid.words[selected[i]] == phrase[i] == grid.words[grid.correctIndices[i]];
      }
    }
  }

  /** So in every state of a run on a phrase without repeats, checking a full selection compares the words. */
  lemma SpellingIsCorrect(s: Screen)
    requires Good(s) && s.state.status == Collecting
    requires |s.state.selected| == |s.phrase| && Distinct(s.phrase)
    ensures Handle(s, Check).state.status == Correct <==> Spelled(s.state) == s.phrase
  {
    UnambiguousSpelling(s.state.grid, s.state.selected, s.phrase);
    assert Spelled(s.state) == s.phrase <==> Spells(s.state.grid, s.state.selected, s.phrase);
  }

  /** Two cells of a repeated word, clicked in the other order. */
  function Swapped(grid: Grid, i: nat, j: nat): (selected: seq<int>)
    requires i < j < |grid.correctIndices|
    ensures |selected| == |grid.correctIndices|
  {
    grid.correctIndices[i := grid.correctIndices[j]][j := grid.correctIndices[i]]
  }

  /** They spell the phrase and are rejected. */
  lemma RepeatedWordOrderMatters(s: Screen, i: nat, j: nat)
    requires s.state.status == Collecting && s.state.selected == [] && ShowsPhrase(s.state.grid, s.phrase)
    requires i < j < |s.phrase| && s.phrase[i] == s.phrase[j]
    ensures var grid := s.state.grid;
            var selected := Swapped(grid, i, j);
            && Selection(grid, selected, |s.phrase|) && Spells(grid, selected, s.phrase)
            && !IsGridSelectionCorrect(grid, selected)
            && Verdict(s, selected) == Incorrect
  {
    var c := s.state.grid.correctIndices;
    var selected := Swapped(s.state.grid, i, j);
    assert selected[i] == c[j] && c[i] != c[j];
    VerdictIsComparison(s, selected);
  }

  /** Checking accepts exactly the selections that spell the phrase. */
  ghost predicate ChecksSpelling(s: Screen) {
    forall selected :: Selection(s.state.grid, selected, |s.phrase|) ==>
      (Verdict(s, selected) == Correct <==> Spells(s.state.grid, selected, s.phrase))
  }

  /** On a screen that was built for a phrase this holds exactly when the phrase repeats no word. */
  lemma ChecksSpellingExactly(realWords: seq<string>, gridSize: int, randomSeed: int, allWords: seq<string>)
    ensures var init := Init(realWords, gridSize, randomSeed, allWords);
            init.Ok? ==> (ChecksSpelling(Screen(init.value, realWords)) <==> Distinct(realWords))
  {
    var init := Init(realWords, gridSize, randomSeed, allWords);
    if init.Ok? {
      var s := Screen(init.value, realWords);
      GridShowsPhrase(realWords, gridSize, randomSeed, allWords);
      UnambiguousExactly(realWords, gridSize, randomSeed, allWords);
      forall selected | Selection(s.state.grid, selected, |realWords|) && Distinct(realWords)
        ensures Verdict(s, selected) == Correct <==> Spells(s.state.grid, selected, realWords)
      {
        VerdictIsComparison(s, selected);
        UnambiguousSpelling(s.state.grid, selected, realWords);
      }
      forall i: nat, j: nat | i < j < |realWords| && realWords[i] == realWords[j] ensures !ChecksSpelling(s) {
        RepeatedWordOrderMatters(s, i, j);
      }
    }
  }
}
