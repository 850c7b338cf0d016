/** The App component: its state, the derivation of the race list, the
    per-friend filter predicate, the filtered view and the two event
    handlers, each as a pure function of the state it reads. */
module App {
  import opened Types
  import opened SeqSpec
  import JsArray
  import JsString
  import JsSet
  import Conditions

  /** The four values App keeps with useState. */
  datatype AppState = AppState(
    friendList: seq<Friend>,       // every friend, as loaded
    condRaces: seq<string>,        // the distinct races, one checkbox each
    condCheckedRaces: seq<string>, // the races whose checkbox is checked
    condName: string)              // the text typed into the name box

  /** The race of every friend, in list order. */
  function Races(friends: seq<Friend>): (r: seq<string>)
    ensures |r| == |friends|
    ensures forall i | 0 <= i < |friends| :: r[i] == friends[i].race
  {
    JsArray.Map(friends, (f: Friend) => f.race)
  }

  /** A race occurs in Races(friends) exactly when some friend has it. */
  lemma RacesMembership(friends: seq<Friend>, race: string)
    ensures race in Races(friends) <==> exists f :: f in friends && f.race == race
  {
    var races := Races(friends);
    if race in races {
      var i :| 0 <= i < |races| && races[i] == race;
      assert friends[i] in friends;
    }
    if exists f :: f in friends && f.race == race {
      var f :| f in friends && f.race == race;
      var i :| 0 <= i < |friends| && friends[i] == f;
      assert races[i] == race;
    }
  }

  /** calcCondRaces: every race that some friend has, each exactly once, in
      the order in which the races first appear in the list. */
  function CalcCondRaces(friends: seq<Friend>): (r: seq<string>)
    ensures NoDuplicates(r)
    ensures forall race :: race in r <==> exists f :: f in friends && f.race == race
    ensures JsSet.InFirstOccurrenceOrder(Races(friends), r)
    ensures |r| <= |friends|
  {
    var races := Races(friends);
    forall race
      ensures race in races <==> exists f :: f in friends && f.race == race
    {
      RacesMembership(friends, race);
    }
    JsSet.FromArray(races)
  }

  /** The contract of CalcCondRaces pins its result down: any duplicate-free
      listing of exactly the races present, in first-occurrence order, is
      the one calcCondRaces returns. */
  lemma CalcCondRacesCharacterised(friends: seq<Friend>, r: seq<string>)
    requires NoDuplicates(r)
    requires forall race :: race in r <==> exists f :: f in friends && f.race == race
    requires JsSet.InFirstOccurrenceOrder(Races(friends), r)
    ensures r == CalcCondRaces(friends)
  {
    var races := Races(friends);
    forall race
      ensures race in r <==> race in JsSet.FromArray(races)
    {
      RacesMembership(friends, race);
    }
    JsSet.FirstOccurrenceListingUnique(races, r, JsSet.FromArray(races));
  }

  /** Deriving the races again from friends whose races are an earlier
      result gives that result back. */
  lemma CalcCondRacesIdempotent(friends: seq<Friend>, others: seq<Friend>)
    requires Races(others) == CalcCondRaces(friends)
    ensures CalcCondRaces(others) == CalcCondRaces(friends)
  {
    JsSet.FromArrayOfDistinct(CalcCondRaces(friends));
  }

  /** The filter as a plain predicate: an empty name query restricts
      nothing, otherwise the name must contain it; an empty checked list
      restricts nothing, otherwise the race must be checked. */
  ghost predicate Matches(friend: Friend, condName: string, condCheckedRaces: seq<string>) {
    && (condName == [] || JsString.Contains(friend.name, condName))
    && (condCheckedRaces == [] || friend.race in condCheckedRaces)
  }

  /** The text-box half of filterFunc. */
  function NameMatches(friend: Friend, condName: string): (b: bool)
    ensures b <==> condName == [] || JsString.Contains(friend.name, condName)
  {
    if |condName| != 0 then JsString.IndexOf(friend.name, condName) != -1 else true
  }

  /** The checkbox half of filterFunc. */
  function RaceMatches(friend: Friend, condCheckedRaces: seq<string>): (b: bool)
    ensures b <==> condCheckedRaces == [] || friend.race in condCheckedRaces
  {
    if |condCheckedRaces| == 0 then true
    else JsArray.IndexOf(condCheckedRaces, friend.race) != -1
  }

  /** filterFunc: whether one friend is shown under the current conditions. */
  function FilterFunc(s: AppState, friend: Friend): (b: bool)
    ensures b <==> Matches(friend, s.condName, s.condCheckedRaces)
  {
    var isTargetText := NameMatches(friend, s.condName);
    var isTargetCb := RaceMatches(friend, s.condCheckedRaces);
    isTargetText && isTargetCb
  }

  /** friendList.filter(filterFunc): the friends shown in the table. */
  function FilteredList(s: AppState): (r: seq<Friend>)
    ensures |r| <= |s.friendList|
    ensures IsSubsequence(r, s.friendList)
    ensures forall f :: f in r <==> f in s.friendList && Matches(f, s.condName, s.condCheckedRaces)
  {
    var p := (f: Friend) => FilterFunc(s, f);
    JsArray.FilterIsSubsequence(s.friendList, p);
    JsArray.Filter(s.friendList, p)
  }

  /** Each friend shown appears as often as in the full list; a friend that
      does not match is not shown at all. */
  lemma FilteredListCounts(s: AppState, f: Friend)
    ensures multiset(FilteredList(s))[f] ==
      if Matches(f, s.condName, s.condCheckedRaces) then multiset(s.friendList)[f] else 0
  {
    JsArray.FilterCounts(s.friendList, (g: Friend) => FilterFunc(s, g), f);
  }

  /** With no name query and no checked race every friend is shown, in order. */
  lemma FilteredListUnrestricted(s: AppState)
    requires s.condName == [] && s.condCheckedRaces == []
    ensures FilteredList(s) == s.friendList
  {
    JsArray.FilterAll(s.friendList, (f: Friend) => FilterFunc(s, f));
  }

  /** A name query whose first character occurs in no friend's name empties
      the table, whatever is checked. */
  lemma UnmatchedNameEmptiesView(s: AppState)
    requires |s.condName| > 0
    requires forall i | 0 <= i < |s.friendList| :: s.condName[0] !in s.friendList[i].name
    ensures FilteredList(s) == []
  {
    forall i | 0 <= i < |s.friendList|
      ensures !Matches(s.friendList[i], s.condName, s.condCheckedRaces)
    {
      JsString.ContainsFirstChar(s.friendList[i].name, s.condName);
    }
    JsArray.FilterNone(s.friendList, (f: Friend) => FilterFunc(s, f));

  }

  /** handleChangeMultiCb: checking a box appends its race to a copy of the
      checked list; unchecking deletes the race's first occurrence through
      splice(indexOf(race), 1), which deletes the last element instead when
      the race is absent. Nothing else in the state changes. */
  function HandleChangeMultiCb(s: AppState, value: string, checked: bool): (t: AppState)
    ensures t.friendList == s.friendList && t.condRaces == s.condRaces && t.condName == s.condName
    ensures checked ==> t.condCheckedRaces == s.condCheckedRaces + [value]
    ensures !checked && value in s.condCheckedRaces ==>
      t.condCheckedRaces == RemoveFirst(s.condCheckedRaces, value)
    ensures !checked && value !in s.condCheckedRaces ==>
      t.condCheckedRaces ==
        if s.condCheckedRaces == [] then [] else s.condCheckedRaces[..|s.condCheckedRaces| - 1]
  {
    var checkedRaces := s.condCheckedRaces;
    if checked then
      s.(condCheckedRaces := JsArray.Push(checkedRaces, value))
    else
      JsArray.SpliceIndexOf(checkedRaces, value);
      s.(condCheckedRaces := JsArray.SpliceOne(checkedRaces, JsArray.IndexOf(checkedRaces, value)))
  }

  /** handleChangeText: the name query becomes the typed text, verbatim. */
  function HandleChangeText(s: AppState, value: string): (t: AppState)
    ensures t.condName == value
    ensures t.friendList == s.friendList && t.condRaces == s.condRaces
    ensures t.condCheckedRaces == s.condCheckedRaces
  {
    s.(condName := value)
  }

  /** Checking a race that was not checked and then unchecking it restores
      the state exactly. */
  lemma CheckThenUncheck(s: AppState, value: string)
    requires value !in s.condCheckedRaces
    ensures HandleChangeMultiCb(HandleChangeMultiCb(s, value, true), value, false) == s
  {
    var t := HandleChangeMultiCb(s, value, true);
    assert value in t.condCheckedRaces;
    assert RemoveFirst(s.condCheckedRaces + [value], value) == s.condCheckedRaces by {
      RemoveFirstAppended(s.condCheckedRaces, value);
    }
  }

  /** Checking any race and then unchecking it leaves the same races checked,
      each as often as before, though possibly in another order. */
  lemma CheckThenUncheckSameRaces(s: AppState, value: string)
    ensures var t := HandleChangeMultiCb(HandleChangeMultiCb(s, value, true), value, false);
      && multiset(t.condCheckedRaces) == multiset(s.condCheckedRaces)
      && t.friendList == s.friendList && t.condRaces == s.condRaces && t.condName == s.condName
  {
    var t := HandleChangeMultiCb(s, value, true);
    assert value in t.condCheckedRaces;
  }

  /** The state the condition panel keeps in step with: no race is checked
      twice, and only races that have a checkbox are checked. */
  predicate Consistent(s: AppState) {
    && NoDuplicates(s.condCheckedRaces)
    && forall race | race in s.condCheckedRaces :: race in s.condRaces
  }

  /** A click on a race checkbox reaches handleChangeMultiCb with the opposite
      of the box's drawn state, so the click toggles exactly that race, never
      meets the splice(-1, 1) case, and keeps the state consistent. */
  lemma CheckboxClickToggles(s: AppState, race: string)
    requires Consistent(s) && race in s.condRaces
    ensures var t := HandleChangeMultiCb(s, race, !Conditions.CalcIsChecked(s.condCheckedRaces, race));
      && Consistent(t)
      && |t.condCheckedRaces| == |s.condCheckedRaces| + (if race in s.condCheckedRaces then -1 else 1)
      && forall r :: r in t.condCheckedRaces <==> (r in s.condCheckedRaces <==> r != race)
  {
    var xs := s.condCheckedRaces;
    if race in xs {
      RemoveFirstDistinct(xs, race);
      var ys := RemoveFirst(xs, race);
      forall r
        ensures r in ys <==> (r in xs && r != race)
      {
        assert r != race ==> multiset(ys)[r] == multiset(xs)[r];
      }
    } else {
      var ys := xs + [race];
      forall i, j | 0 <= i < j < |ys|
        ensures ys[i] != ys[j]
      {
        if j == |xs| {
          assert ys[i] in xs;
        }
      }
    }
  }

  /** The two handlers touch disjoint parts of the state, so they commute. */
  lemma HandlersCommute(s: AppState, race: string, checked: bool, text: string)
    ensures HandleChangeText(HandleChangeMultiCb(s, race, checked), text)
         == HandleChangeMultiCb(HandleChangeText(s, text), race, checked)
  {
  }

  /** Clearing the name box leaves only the race condition in force. */
  lemma ClearedNameShowsRaceMatches(s: AppState)
    ensures forall f :: f in FilteredList(HandleChangeText(s, [])) <==>
      f in s.friendList && (s.condCheckedRaces == [] || f.race in s.condCheckedRaces)
  {
  }
}
