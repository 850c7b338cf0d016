/** Proofs of what the filter returns on the sample friend list the App
    loads in place of a server call, and on a three-friend list. */
module Scenarios {
  import opened Types
  import opened App
  import JsString
  import JsSet

  /** The friend list App shows, in its order. */
  const SampleFriends: seq<Friend> := [
    Friend("シューちゃん", "ねこ"),
    Friend("ジェラトーニ", "ねこ"),
    Friend("クマたん", "くま"),
    Friend("クマすけ", "くま"),
    Friend("テディベア", "くま"),
    Friend("リボンのくまさん", "くま"),
    Friend("ハンさん", "ユニコーン"),
    Friend("ダンテさん", "ドラゴン"),
    Friend("スカイア", "ドラゴン"),
    Friend("きりんさん", "キリン"),
    Friend("あかねまる", "きつね"),
    Friend("ペネロペ", "コアラ"),
    Friend("エトワール", "うさぎ"),
    Friend("うさぴょん", "うさぎ"),
    Friend("ミミちゃん", "うさぎ"),
    Friend("おうまさん", "うま"),
    Friend("イケアくん", "くま"),
    Friend("フーちゃん", "ふくろう"),
    Friend("ステラ・ルー", "うさぎ"),
    Friend("ガオちゃん", "きょうりゅう"),
    Friend("くんくん", "いぬ")
  ]

  /** The state right after loading: the sample list and its races, nothing
      checked, no name typed. */
  const Loaded: AppState := AppState(SampleFriends, CalcCondRaces(SampleFriends), [], [])

  /** No sample name holds the letter z. */
  lemma SampleNamesLackZ()
    ensures forall i | 0 <= i < |SampleFriends| :: 'z' !in SampleFriends[i].name
  {
    SampleNamesLackZFrom(0);
    SampleNamesLackZFrom(7);
    SampleNamesLackZFrom(14);
  }

  /** Seven sample names in a row, from position from, lack the letter z. */
  lemma SampleNamesLackZFrom(from: nat)
    requires from == 0 || from == 7 || from == 14
    ensures forall i | from <= i < from + 7 :: 'z' !in SampleFriends[i].name
  {
  }

  /** No sample friend passes with うさぎ checked and "z" typed: the table
      is empty. */
  lemma SampleRabbitZ()
    ensures FilteredList(Loaded.(condCheckedRaces := ["うさぎ"], condName := "z")) == []
  {
    SampleNamesLackZ();
    UnmatchedNameEmptiesView(Loaded.(condCheckedRaces := ["うさぎ"], condName := "z"));
  }

  /** A three-friend list in which two friends share a race. */
  const Trio: seq<Friend> := [Friend("Mimi", "rabbit"), Friend("Dante", "dragon"), Friend("Sky", "dragon")]

  /** Its races, each once, rabbit first. */
  lemma TrioRaces()
    ensures CalcCondRaces(Trio) == ["rabbit", "dragon"]
  {
    var races := Races(Trio);
    assert races == ["rabbit", "dragon", "dragon"];
    assert races[..1][..0] == [];
    assert races[..2][..1] == races[..1];
    assert races[..3][..2] == races[..2];
    assert JsSet.FromArray(races[..1]) == ["rabbit"];
    assert JsSet.FromArray(races[..2]) == ["rabbit", "dragon"];
    assert races[..3] == races;
  }

  /** Checking dragon shows Dante and Sky. */
  lemma TrioDragons()
    ensures FilteredList(AppState(Trio, ["rabbit", "dragon"], ["dragon"], "")) ==
      [Friend("Dante", "dragon"), Friend("Sky", "dragon")]
  {
  }

  /** "mi" occurs in "Mimi", at position 2, but not in "Dante" or "Sky". */
  lemma TrioNamesWithMi()
    ensures NameMatches(Trio[0], "mi") && !NameMatches(Trio[1], "mi") && !NameMatches(Trio[2], "mi")
  {
    assert JsString.OccursAt("Mimi", "mi", 2);
    JsString.ContainsFirstChar("Dante", "mi");
    JsString.ContainsFirstChar("Sky", "mi");
  }

  /** Typing "mi" with nothing checked shows Mimi only. */
  lemma TrioNameMi()
    ensures FilteredList(AppState(Trio, ["rabbit", "dragon"], [], "mi")) == [Friend("Mimi", "rabbit")]
  {
    TrioNamesWithMi();
  }

  /** Typing "dante" shows nobody: the match is case-sensitive, and no name
      holds a lower-case d. */
  lemma TrioLowerCaseDante()
    ensures FilteredList(AppState(Trio, ["rabbit", "dragon"], [], "dante")) == []
  {
    assert forall i | 0 <= i < |Trio| :: 'd' !in Trio[i].name;
    UnmatchedNameEmptiesView(AppState(Trio, ["rabbit", "dragon"], [], "dante"));
  }

  /** Checking rabbit and typing "z" shows nobody. */
  lemma TrioRabbitZ()
    ensures FilteredList(AppState(Trio, ["rabbit", "dragon"], ["rabbit"], "z")) == []
  {
    assert forall i | 0 <= i < |Trio| :: 'z' !in Trio[i].name;
    UnmatchedNameEmptiesView(AppState(Trio, ["rabbit", "dragon"], ["rabbit"], "z"));
  }
}
