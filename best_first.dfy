/** `a_star_search` of ai.py: a cost-ordered frontier of search states and a set of
    explored hand keys. Because a state with a non-empty path and a playable card
    returns at once, only the root is ever expanded. */
module BestFirst {
  import opened Wrappers
  import opened Cards
  import opened Hands
  import opened Heuristics

  /** A frontier entry: the tuple (cost, hand, path, active colour). */
  datatype SearchState = SearchState(cost: int, hand: seq<Card>, path: seq<Card>, color: Color)

  /** The explored-set key: the ordered tuple of (colour, value) pairs. */
  function HandKey(hand: seq<Card>): seq<(Color, Value)> {
    seq(|hand|, i requires 0 <= i < |hand| => (hand[i].color, hand[i].value))
  }

  /** Two hands have the same key exactly when they hold the same cards in the same
      order, so the explored set skips a state only when its hand was seen before. */
  lemma HandKeyInjective(a: seq<Card>, b: seq<Card>)
    ensures HandKey(a) == HandKey(b) <==> a == b
  {
    if HandKey(a) == HandKey(b) {
      assert |a| == |HandKey(a)| == |b|;
      forall i | 0 <= i < |a|
        ensures a[i] == b[i]
      {
        assert HandKey(a)[i] == HandKey(b)[i];
      }
    }
  }

  /** The state pushed for playing the card at index `idx` of `st.hand`. */
  function Child(st: SearchState, idx: nat, choose: Chooser): SearchState
    requires idx < |st.hand|
  {
    var card := st.hand[idx];
    var newHand := RemoveAt(st.hand, idx);
    var newColor := ResultingColor(card, st.color, newHand, choose);
    var newCost := HandCost(newHand) - (if IsSpecial(card) then 2 else 0);
    SearchState(newCost, newHand, st.path + [card], newColor)
  }

  /** The states for playing the cards at `idxs`, in that order. */
  function Children(st: SearchState, idxs: seq<nat>, choose: Chooser): (children: seq<SearchState>)
    requires forall j :: 0 <= j < |idxs| ==> idxs[j] < |st.hand|
    ensures |children| == |idxs|
  {
    if idxs == [] then []
    else Children(st, idxs[..|idxs| - 1], choose) + [Child(st, idxs[|idxs| - 1], choose)]
  }

  lemma ChildrenSnoc(st: SearchState, idxs: seq<nat>, i: nat, choose: Chooser)
    requires forall j :: 0 <= j < |idxs| ==> idxs[j] < |st.hand|
    requires i < |idxs|
    ensures Children(st, idxs[..i + 1], choose) == Children(st, idxs[..i], choose) + [Child(st, idxs[i], choose)]
  {
    assert idxs[..i + 1][..i] == idxs[..i];
  }

  /** One round of the push loop adds the next child to the pushed entries. */
  lemma PushStep(frontier: seq<SearchState>, pushed: seq<SearchState>, st: SearchState,
                 idxs: seq<nat>, i: nat, choose: Chooser, x: SearchState)
    requires forall j :: 0 <= j < |idxs| ==> idxs[j] < |st.hand|
    requires i < |idxs|
    requires multiset(pushed) == multiset(frontier) + multiset(Children(st, idxs[..i], choose))
    requires x == Child(st, idxs[i], choose)
    ensures multiset(pushed + [x]) == multiset(frontier) + multiset(Children(st, idxs[..i + 1], choose))
  {
    ChildrenSnoc(st, idxs, i, choose);
  }

  /** All states the `for card in playable_cards` loop pushes for `st`, in order. */
  function Expand(st: SearchState, refValue: Value, choose: Chooser): seq<SearchState> {
    Children(st, PlayableIndices(st.hand, st.color, refValue), choose)
  }

  lemma {:induction false} ChildrenAt(st: SearchState, idxs: seq<nat>, choose: Chooser, j: nat)
    requires forall j :: 0 <= j < |idxs| ==> idxs[j] < |st.hand|
    requires j < |idxs|
    ensures Children(st, idxs, choose)[j] == Child(st, idxs[j], choose)
  {
    if j < |idxs| - 1 {
      ChildrenAt(st, idxs[..|idxs| - 1], choose, j);
    }
  }

  /** `s` results from playing one playable card of the root hand. */
  ghost predicate FromRoot(s: SearchState, hand: seq<Card>, color: Color, refValue: Value) {
    exists idx :: 0 <= idx < |hand| && Playable(hand[idx], color, refValue) &&
                  s.path == [hand[idx]] && s.hand == RemoveAt(hand, idx)
  }

  /** Every state pushed when the root is expanded has a one-card path and a hand one card
      shorter, so the "three fewer cards" exit can only fire on an emptied hand. */
  lemma ExpandRoot(hand: seq<Card>, color: Color, refValue: Value, choose: Chooser)
    ensures var children := Expand(SearchState(HandCost(hand), hand, [], color), refValue, choose);
            |children| == |PlayableIndices(hand, color, refValue)| &&
            forall s :: s in children ==> FromRoot(s, hand, color, refValue) && |s.path| == 1 && |s.hand| == |hand| - 1
  {
    var root := SearchState(HandCost(hand), hand, [], color);
    var p := PlayableIndices(hand, color, refValue);
    var children := Expand(root, refValue, choose);
    forall s | s in children
      ensures FromRoot(s, hand, color, refValue)
    {
      var j :| 0 <= j < |children| && children[j] == s;
      ChildrenAt(root, p, choose, j);
    }
  }

  /** A state pushed for the root plays one of its playable cards and holds one card less. */
  lemma RootExpansionMember(hand: seq<Card>, color: Color, refValue: Value, choose: Chooser, s: SearchState)
    requires s in RootExpansion(hand, color, refValue, choose)
    ensures |s.path| == 1 && |s.hand| == |hand| - 1
    ensures exists idx :: 0 <= idx < |hand| && Playable(hand[idx], color, refValue) && s.path[0] == hand[idx]
  {
    ExpandRoot(hand, color, refValue, choose);
    var idx :| 0 <= idx < |hand| && Playable(hand[idx], color, refValue) &&
               s.path == [hand[idx]] && s.hand == RemoveAt(hand, idx);
  }

  /** Expanding the root into an empty heap leaves one entry per playable card, all of
      them states of the root's expansion, among them every one that ends the search. */
  lemma RootPush(hand: seq<Card>, color: Color, refValue: Value, choose: Chooser,
                 st: SearchState, rest: seq<SearchState>, pushed: seq<SearchState>)
    requires st == SearchState(HandCost(hand), hand, [], color)
    requires rest == []
    requires multiset(pushed) == multiset(rest) + multiset(Expand(st, refValue, choose))
    requires |pushed| == |rest| + |Expand(st, refValue, choose)|
    ensures |pushed| == |PlayableIndices(hand, color, refValue)|
    ensures forall s :: s in pushed ==> s in RootExpansion(hand, color, refValue, choose)
    ensures AnswersWaiting(RootExpansion(hand, color, refValue, choose), pushed, refValue)
  {
    ExpandRoot(hand, color, refValue, choose);
    var children := Expand(st, refValue, choose);
    forall s | s in pushed
      ensures s in RootExpansion(hand, color, refValue, choose)
    {
      assert s in multiset(pushed);
    }
    forall s | s in children
      ensures s in pushed
    {
      assert s in multiset(children);
      assert s in multiset(pushed);
    }
  }

  /** Expanding a state with no playable card leaves the heap's entries as they were. */
  lemma LeafPush(st: SearchState, refValue: Value, choose: Chooser,
                 rest: seq<SearchState>, pushed: seq<SearchState>)
    requires PlayableIndices(st.hand, st.color, refValue) == []
    requires multiset(pushed) == multiset(rest) + multiset(Expand(st, refValue, choose))
    requires |pushed| == |rest| + |Expand(st, refValue, choose)|
    ensures |pushed| == |rest|
    ensures forall s :: s in pushed <==> s in rest
  {
    forall s | s in pushed
      ensures s in rest
    {
      assert s in multiset(pushed);
    }
    assert Expand(st, refValue, choose) == [];
    forall s | s in rest
      ensures s in pushed
    {
      assert s in multiset(rest);
      assert s in multiset(pushed);
    }
  }

  /** The smallest cost in a non-empty frontier (what `heappop` looks for). */
  function MinCost(frontier: seq<SearchState>): (m: int)
    requires frontier != []
    ensures exists k :: 0 <= k < |frontier| && frontier[k].cost == m
    ensures forall k :: 0 <= k < |frontier| ==> m <= frontier[k].cost
  {
    if |frontier| == 1 then frontier[0].cost
    else
      var m := MinCost(frontier[1..]);
      assert forall k :: 1 <= k < |frontier| ==> frontier[k] == frontier[1..][k - 1];
      if frontier[0].cost <= m then frontier[0].cost else m
  }

  /** The `for card in playable_cards` loop of `a_star_search`: pushes the state for each
      playable card of `st`. The heap's internal order is not modelled, only its entries. */
  method PushChildren(frontier: seq<SearchState>, st: SearchState, refValue: Value, choose: Chooser)
    returns (pushed: seq<SearchState>)
    ensures multiset(pushed) == multiset(frontier) + multiset(Expand(st, refValue, choose))
    ensures |pushed| == |frontier| + |Expand(st, refValue, choose)|
  {
    pushed := frontier;
    var playable := PlayableIndices(st.hand, st.color, refValue);
    for i := 0 to |playable|
      invariant multiset(pushed) == multiset(frontier) + multiset(Children(st, playable[..i], choose))
      invariant |pushed| == |frontier| + i
    {
      var card := st.hand[playable[i]];
      var newHand := RemoveAt(st.hand, playable[i]);
      var newColor := ResultingColor(card, st.color, newHand, choose);
      var newCost := HandCost(newHand) - (if IsSpecial(card) then 2 else 0);
      var newPath := st.path + [card];
      PushStep(frontier, pushed, st, playable, i, choose, SearchState(newCost, newHand, newPath, newColor));
      pushed := pushed + [SearchState(newCost, newHand, newPath, newColor)];
    }
    assert playable[..|playable|] == playable;
  }

  /** `heappop`: takes out an entry of least cost. Which of several such entries comes
      out is left open, and so is the heap's internal order: only the multiset of
      entries is kept track of. */
  method PopMin(frontier: seq<SearchState>) returns (st: SearchState, rest: seq<SearchState>)
    requires frontier != []
    ensures st in multiset(frontier) && st.cost == MinCost(frontier)
    ensures forall s :: s in frontier ==> st.cost <= s.cost
    ensures multiset(rest) == multiset(frontier) - multiset{st}
    ensures |rest| == |frontier| - 1
    ensures st in frontier && forall s :: s in rest ==> s in frontier
  {
    var k :| 0 <= k < |frontier| && frontier[k].cost == MinCost(frontier);
    st := frontier[k];
    rest := RemoveAt(frontier, k);
    RemoveAtFacts(frontier, k);
    forall s | s in rest
      ensures s in frontier
    {
      assert s in multiset(rest);
    }
  }

  /** What the loop does with a popped state after recording its hand key. */
  datatype Check = Exit(move: Option<Card>) | Descend

  /** The three tests of the loop body, in their order: an emptied hand, or a hand down by
      three cards after at least one move, answers the first card of the path (None at the
      root); no playable card at the root answers None; a playable card anywhere but the
      root answers the first card of the path; otherwise the state is expanded. */
  function Examine(st: SearchState, handSize: nat, refValue: Value): Check {
    if st.hand == [] || (st.path != [] && |st.hand| <= handSize - 3) then
      Exit(if st.path != [] then Some(st.path[0]) else None)
    else
      var playable := PlayableIndices(st.hand, st.color, refValue);
      if playable == [] && st.path == [] then Exit(None)
      else if playable != [] && st.path != [] then Exit(Some(st.path[0]))
      else Descend
  }

  /** At the root the search stops with None exactly when the hand is empty or has no
      playable card, and expands the root otherwise. */
  lemma ExamineRoot(hand: seq<Card>, color: Color, refValue: Value)
    ensures var check := Examine(SearchState(HandCost(hand), hand, [], color), |hand|, refValue);
            if hand == [] || PlayableIndices(hand, color, refValue) == [] then check == Exit(None)
            else check == Descend
  {
  }

  /** A state one move below the root either answers that move, or has no playable card
      and so pushes nothing. */
  lemma ExamineChild(hand: seq<Card>, color: Color, refValue: Value, s: SearchState)
    requires |s.path| == 1 && |s.hand| == |hand| - 1
    ensures Examine(s, |hand|, refValue) == Exit(Some(s.path[0])) ||
            (Examine(s, |hand|, refValue) == Descend && PlayableIndices(s.hand, s.color, refValue) == [])
    ensures Examine(s, |hand|, refValue).Exit? <==> Answers(s, refValue)
    ensures s.path == [s.path[0]]
  {
  }

  /** A state one move below the root ends the search when its hand is empty or still
      holds a playable card. */
  predicate Answers(s: SearchState, refValue: Value) {
    s.hand == [] || PlayableIndices(s.hand, s.color, refValue) != []
  }

  /** The states pushed when the root of `a_star_search` is expanded. */
  function RootExpansion(hand: seq<Card>, color: Color, refValue: Value, choose: Chooser): seq<SearchState> {
    Expand(SearchState(HandCost(hand), hand, [], color), refValue, choose)
  }

  /** `s` is a cheapest state among the `children` that end the search. */
  ghost predicate LeastAnswer(s: SearchState, children: seq<SearchState>, refValue: Value) {
    s in children && Answers(s, refValue) &&
    forall t :: t in children && Answers(t, refValue) ==> s.cost <= t.cost
  }

  /** Every state of `children` that ends the search is still waiting in `frontier`. */
  ghost predicate AnswersWaiting(children: seq<SearchState>, frontier: seq<SearchState>, refValue: Value) {
    forall s :: s in children && Answers(s, refValue) ==> s in frontier
  }

  /** Every explored key is the root's, or the key of a child that did not end the search. */
  ghost predicate ExploredNonAnswers(explored: set<seq<(Color, Value)>>, hand: seq<Card>,
                                     children: seq<SearchState>, refValue: Value) {
    forall k :: k in explored ==>
      k == HandKey(hand) || exists s :: s in children && !Answers(s, refValue) && HandKey(s.hand) == k
  }

  /** Removing two positions of a sequence leaves the same sequence only if they hold the
      same element. */
  lemma RemoveAtSameElement<T>(s: seq<T>, i: nat, j: nat)
    requires i < |s| && j < |s|
    requires RemoveAt(s, i) == RemoveAt(s, j)
    ensures s[i] == s[j]
  {
    RemoveAtFacts(s, i);
    RemoveAtFacts(s, j);
    assert multiset(RemoveAt(s, i))[s[i]] == multiset(s)[s[i]] - 1;
    assert multiset(RemoveAt(s, j))[s[i]] == multiset(s)[s[i]] - if s[i] == s[j] then 1 else 0;
  }

  /** Playing two positions of a hand that leave the same hand gives the same child. */
  lemma ChildByHand(st: SearchState, i: nat, j: nat, choose: Chooser)
    requires i < |st.hand| && j < |st.hand|
    requires Child(st, i, choose).hand == Child(st, j, choose).hand
    ensures Child(st, i, choose) == Child(st, j, choose)
  {
    RemoveAtSameElement(st.hand, i, j);
  }

  /** Two children of the root with the same hand played the same card, so they are the
      same state: the explored set never confuses two different children. */
  lemma RootChildrenByHand(hand: seq<Card>, color: Color, refValue: Value, choose: Chooser,
                           s: SearchState, t: SearchState)
    requires s in RootExpansion(hand, color, refValue, choose)
    requires t in RootExpansion(hand, color, refValue, choose)
    requires s.hand == t.hand
    ensures s == t
  {
    var root := SearchState(HandCost(hand), hand, [], color);
    var p := PlayableIndices(hand, color, refValue);
    var children := Expand(root, refValue, choose);
    ExpandRoot(hand, color, refValue, choose);
    var i :| 0 <= i < |children| && children[i] == s;
    var j :| 0 <= j < |children| && children[j] == t;
    ChildrenAt(root, p, choose, i);
    ChildrenAt(root, p, choose, j);
    ChildByHand(root, p[i], p[j], choose);
  }

  /** A root child skipped because its hand key was explored does not end the search. */
  lemma SkippedChild(hand: seq<Card>, color: Color, refValue: Value, choose: Chooser,
                     explored: set<seq<(Color, Value)>>, st: SearchState)
    requires ExploredNonAnswers(explored, hand, RootExpansion(hand, color, refValue, choose), refValue)
    requires st in RootExpansion(hand, color, refValue, choose)
    requires HandKey(st.hand) in explored
    ensures !Answers(st, refValue)
  {
    var children := RootExpansion(hand, color, refValue, choose);
    ExpandRoot(hand, color, refValue, choose);
    HandKeyInjective(st.hand, hand);
    var s :| s in children && !Answers(s, refValue) && HandKey(s.hand) == HandKey(st.hand);
    HandKeyInjective(s.hand, st.hand);
    RootChildrenByHand(hand, color, refValue, choose, s, st);
  }

  /** Recording the root's key, or the key of a child that does not end the search, keeps
      the explored set made of such keys. */
  lemma ExploreStep(explored: set<seq<(Color, Value)>>, hand: seq<Card>, children: seq<SearchState>,
                    refValue: Value, st: SearchState)
    requires ExploredNonAnswers(explored, hand, children, refValue)
    requires st.hand == hand || (st in children && !Answers(st, refValue))
    ensures ExploredNonAnswers(explored + {HandKey(st.hand)}, hand, children, refValue)
  {
  }

  /** Popping a state that does not end the search keeps every one that does. */
  lemma PopKeepsAnswers(children: seq<SearchState>, frontier: seq<SearchState>, st: SearchState,
                        rest: seq<SearchState>, refValue: Value)
    requires AnswersWaiting(children, frontier, refValue)
    requires multiset(rest) == multiset(frontier) - multiset{st}
    requires !Answers(st, refValue)
    ensures AnswersWaiting(children, rest, refValue)
  {
    forall s | s in children && Answers(s, refValue)
      ensures s in rest
    {
      assert s in multiset(frontier);
      assert multiset(rest)[s] == multiset(frontier)[s];
    }
  }

  /** A popped state of least cost that ends the search is a cheapest such child. */
  lemma PopBest(children: seq<SearchState>, frontier: seq<SearchState>, st: SearchState, refValue: Value)
    requires AnswersWaiting(children, frontier, refValue)
    requires forall s :: s in frontier ==> st.cost <= s.cost
    requires st in children && Answers(st, refValue)
    ensures LeastAnswer(st, children, refValue)
  {
  }

  /** `a_star_search(hand, top_card, current_color)`. The result is None exactly when the
      hand is empty, has no playable card, or has 100 or more playable cards (the frontier
      bound then stops the loop right after the root); otherwise it is a playable card of
      the hand, and when some child of the root ends the search (an emptied hand or a
      playable card left), it is the card played by a cheapest such child. */
  method AStarSearch(hand: seq<Card>, top: Card, currentColor: Color, choose: Chooser)
    returns (move: Option<Card>)
    ensures move.None? <==>
              (hand == [] || |PlayableIndices(hand, currentColor, top.value)| == 0 ||
               |PlayableIndices(hand, currentColor, top.value)| >= 100)
    ensures move.Some? ==>
              exists idx :: 0 <= idx < |hand| && move.value == hand[idx] &&
                            Playable(hand[idx], currentColor, top.value)
    ensures var children := RootExpansion(hand, currentColor, top.value, choose);
            move.Some? && (exists s :: s in children && Answers(s, top.value)) ==>
              exists s :: LeastAnswer(s, children, top.value) && s.path == [move.value]
  {
    var root := SearchState(HandCost(hand), hand, [], currentColor);
    var frontier := [root];
    var explored: set<seq<(Color, Value)>> := {};
    var path: seq<Card> := [];
    ghost var rootPlayable := PlayableIndices(hand, currentColor, top.value);
    ghost var children := RootExpansion(hand, currentColor, top.value, choose);
    ghost var phase := 0;   // 0 root not popped; 1 root expanded; 2 a child popped
    ghost var pick: nat := 0;
    ExamineRoot(hand, currentColor, top.value);
    while frontier != [] && |frontier| < 100
      invariant phase <= 2
      invariant phase == 0 ==> |frontier| == 1 && frontier[0] == root && path == [] && explored == {}
      invariant phase == 1 ==> |frontier| == |rootPlayable| && path == [] && hand != [] && rootPlayable != []
      invariant phase == 2 ==> hand != [] && 0 < |rootPlayable| < 100 && |path| == 1 && pick < |hand| &&
                               path[0] == hand[pick] && Playable(hand[pick], currentColor, top.value)
      invariant phase >= 1 ==> forall s :: s in frontier ==> s in children
      invariant phase >= 1 ==> |frontier| <= |rootPlayable| && AnswersWaiting(children, frontier, top.value)
      invariant ExploredNonAnswers(explored, hand, children, top.value)
      decreases if phase == 0 then 1 else 0, |frontier|
    {
      var st, rest := PopMin(frontier);
      ghost var popped := frontier;
      assert phase == 0 ==> st == root;
      frontier := rest;
      path := st.path;
      if phase >= 1 {
        RootExpansionMember(hand, currentColor, top.value, choose, st);
        pick :| 0 <= pick < |hand| && Playable(hand[pick], currentColor, top.value) && st.path[0] == hand[pick];
        phase := 2;
        ExamineChild(hand, currentColor, top.value, st);
      }

      var handKey := HandKey(st.hand);
      if handKey in explored {
        SkippedChild(hand, currentColor, top.value, choose, explored, st);
        PopKeepsAnswers(children, popped, st, rest, top.value);
        continue;
      }
      ghost var seen := explored;
      explored := explored + {handKey};

      var check := Examine(st, |hand|, top.value);
      if check.Exit? {
        if phase >= 1 {
          PopBest(children, popped, st, top.value);
        }
        return check.move;
      }
      if phase >= 1 {
        PopKeepsAnswers(children, popped, st, rest, top.value);
      }
      ExploreStep(seen, hand, children, top.value, st);

      frontier := PushChildren(frontier, st, top.value, choose);
      if phase == 0 {
        RootPush(hand, currentColor, top.value, choose, st, rest, frontier);
        phase := 1;
      } else {
        LeafPush(st, top.value, choose, rest, frontier);
      }
    }

    return if path != [] then Some(path[0]) else None;
  }
}
