/** The game being set up: its area, the items brought so far, and the title
    the classifier gave it when it was created. */
module Games {
  import opened Wrappers
  import opened Items
  import opened Classifier
  import opened LowerCase

  /** The process-wide team roster the constructor classifies against. */
  const Teams: map<string, int> := map["team1" := 1, "team2" := 10, "team3" := 20, "team4" := 7]

  /** Every key is the title of the item it maps to. */
  ghost predicate KeyedByTitle(m: map<string, Item>) {
    forall k :: k in m ==> m[k].title == k
  }

  /** The titles of the items of a list. */
  function Titles(xs: seq<Item>): set<string> {
    set i | 0 <= i < |xs| :: xs[i].title
  }

  /** No later item of the list has the same title as `xs[i]`. */
  predicate LastWithTitle(xs: seq<Item>, i: nat)
    requires i < |xs|
  {
    forall j :: i < j < |xs| ==> xs[j].title != xs[i].title
  }

  /** The map built from the pairs (title, item), in list order, so that a later
      item replaces an earlier one with the same title. */
  function FromEntries(xs: seq<Item>): (m: map<string, Item>)
    ensures m.Keys == Titles(xs)
    ensures KeyedByTitle(m)
    ensures forall i :: 0 <= i < |xs| && LastWithTitle(xs, i) ==> m[xs[i].title] == xs[i]
  {
    if xs == [] then map[]
    else
      var prev := FromEntries(xs[..|xs| - 1]);
      EntryStep(xs, prev);
      prev[xs[|xs| - 1].title := xs[|xs| - 1]]
  }

  /** Adding the last pair of a list to the map of all the others gives the
      map of the whole list. */
  lemma EntryStep(xs: seq<Item>, prev: map<string, Item>)
    requires |xs| > 0
    requires prev.Keys == Titles(xs[..|xs| - 1]) && KeyedByTitle(prev)
    requires forall i :: 0 <= i < |xs| - 1 && LastWithTitle(xs[..|xs| - 1], i) ==> prev[xs[i].title] == xs[i]
    ensures prev[xs[|xs| - 1].title := xs[|xs| - 1]].Keys == Titles(xs)
    ensures KeyedByTitle(prev[xs[|xs| - 1].title := xs[|xs| - 1]])
    ensures forall i :: 0 <= i < |xs| && LastWithTitle(xs, i) ==>
              prev[xs[|xs| - 1].title := xs[|xs| - 1]][xs[i].title] == xs[i]
  {
    var init, last := xs[..|xs| - 1], xs[|xs| - 1];
    var m := prev[last.title := last];
    assert Titles(xs) == Titles(init) + {last.title} by {
      forall i | 0 <= i < |xs| - 1 ensures xs[i].title in Titles(init) {
        assert init[i] == xs[i];
      }
    }
    forall i | 0 <= i < |xs| && LastWithTitle(xs, i) ensures m[xs[i].title] == xs[i] {
      if i < |xs| - 1 {
        assert xs[i].title != last.title;
        assert init[i] == xs[i];
        assert LastWithTitle(init, i) by {
          forall j | i < j < |init| ensures init[j].title != init[i].title {
            assert init[j] == xs[j];
          }
        }
      }
    }
  }

  /** Turning "no title" into the empty string loses nothing: the stored title
      is empty exactly when the classifier found no title. */
  lemma EmptyTitleMeansUnclassified(area: string, items: map<string, Item>, roster: map<string, int>)
    ensures GetGameTitle(area, items, roster).GetOr("") == "" <==> GetGameTitle(area, items, roster) == None
  {
    assert Golf[0] == 'г';
  }

  /** Of two items with the same title, only the later one is kept. */
  lemma LaterDuplicateWins(x: Item, y: Item)
    requires x.title == y.title
    ensures FromEntries([x, y]) == map[y.title := y]
  {
    assert LastWithTitle([x, y], 1);
  }

  /** The shipped roster has three teams with more than two members, so the
      team-size guard lets it through. */
  lemma ShippedRosterThreeLarge()
    ensures CountLarge(Teams) == 3
  {
    assert LargeTeams(Teams) == {"team2", "team3", "team4"};
  }

  class Game {
    var area: string
    var items: map<string, Item>
    var title: string

    ghost predicate Valid()
      reads this
    {
      KeyedByTitle(items)
    }

    /** Stores the area, installs the initial items if a list is given, then
        classifies once against the shipped roster; no title becomes "". */
    constructor (area: string, initial: Option<seq<Item>>)
      ensures Valid()
      ensures this.area == area
      ensures items == (if initial.Some? then FromEntries(initial.value) else map[])
      ensures title == GetGameTitle(area, items, Teams).GetOr("")
      ensures title == "" || title == Golf
      ensures initial.None? || initial == Some([]) ==> title == ""
    {
      this.area := area;
      items := map[];
      title := "";
      new;
      if initial.Some? {
        AddItems(initial.value);
      }
      title := GetGameTitle(this.area, items, Teams).GetOr("");
    }

    /** Inserts the item under its own title, replacing any item of that title.
        The title of the game is not recomputed. */
    method AddItem(item: Item)
      requires Valid()
      modifies this
      ensures Valid()
      ensures items == old(items)[item.title := item]
      ensures items.Keys == old(items.Keys) + {item.title}
      ensures forall k :: k in old(items) && k != item.title ==> k in items && items[k] == old(items)[k]
      ensures area == old(area) && title == old(title)
    {
      items := items[item.title := item];
    }

    /** Replaces all items with those of the list, a later item winning over an
        earlier one of the same title. The title of the game is not recomputed. */
    method AddItems(xs: seq<Item>)
      modifies this
      ensures Valid()
      ensures items == FromEntries(xs)
      ensures items.Keys == Titles(xs)
      ensures forall i :: 0 <= i < |xs| && LastWithTitle(xs, i) ==> items[xs[i].title] == xs[i]
      ensures area == old(area) && title == old(title)
    {
      items := FromEntries(xs);
    }
  }

  /** A round ball indoors with the shipped roster is golf. */
  lemma GolfScenario()
    ensures GetGameTitle("Приміщення", FromEntries([Item(Ball, Round)]), Teams) == Some(Golf)
  {
    var items := FromEntries([Item(Ball, Round)]);
    assert LastWithTitle([Item(Ball, Round)], 0);
    assert Ball in items && items[Ball].shape == Round;
    assert Mallet !in items;
    LowerCapitalised();
    ShippedRosterThreeLarge();
    GolfExactlyWhen("Приміщення", items, Teams);
  }

  /** The same game is not golf outdoors. */
  lemma OutdoorScenario()
    ensures GetGameTitle("вулиця", FromEntries([Item(Ball, Round)]), Teams) == None
  {
    assert |ToLower("вулиця")| != |Indoor|;
  }

  /** The same game is not golf when exactly two teams are large. */
  lemma StrictRosterScenario()
    ensures GetGameTitle("Приміщення", FromEntries([Item(Ball, Round)]),
                         map["a" := 5, "b" := 6, "c" := 1, "d" := 1]) == None
  {
    TwoOfFourLarge();
  }

  /** The same game is not golf once a wooden mallet is brought along at creation. */
  lemma MalletScenario()
    ensures GetGameTitle("Приміщення", FromEntries([Item(Ball, Round), Item(Mallet, "")]), Teams) == None
  {
    var xs := [Item(Ball, Round), Item(Mallet, "")];
    assert Mallet in Titles(xs) by { assert xs[1].title == Mallet; }
  }

  /** The golf scenario on a constructed game. */
  method BuildGolfGame() returns (g: Game)
    ensures g.area == "Приміщення" && g.items == map[Ball := Item(Ball, Round)]
    ensures g.title == Golf
  {
    g := new Game("Приміщення", Some([Item(Ball, Round)]));
    GolfScenario();
    assert LastWithTitle([Item(Ball, Round)], 0);
  }

  /** The outdoor scenario on a constructed game. */
  method BuildOutdoorGame() returns (g: Game)
    ensures g.area == "вулиця" && Ball in g.items
    ensures g.title == ""
  {
    g := new Game("вулиця", Some([Item(Ball, Round)]));
    OutdoorScenario();
    assert LastWithTitle([Item(Ball, Round)], 0);
  }

  /** The mallet scenario on a constructed game. */
  method BuildMalletGame() returns (g: Game)
    ensures g.area == "Приміщення" && Ball in g.items && Mallet in g.items
    ensures g.title == ""
  {
    var xs := [Item(Ball, Round), Item(Mallet, "")];
    g := new Game("Приміщення", Some(xs));
    MalletScenario();
    assert LastWithTitle(xs, 0) && LastWithTitle(xs, 1);
  }

  /** A game created without items, as the interactive session creates it,
      keeps the empty title however many items are added afterwards. */
  method SessionKeepsEmptyTitle(area: string, xs: seq<Item>) returns (g: Game)
    ensures g.Valid() && g.area == area && g.title == ""
    ensures g.items == FromEntries(xs)
    ensures forall i :: 0 <= i < |xs| && LastWithTitle(xs, i) ==> xs[i].title in g.items && g.items[xs[i].title] == xs[i]
  {
    g := new Game(area, None);
    var n := 0;
    while n < |xs|
      invariant n <= |xs|
      invariant g.Valid() && g.area == area && g.title == ""
      invariant g.items == FromEntries(xs[..n])
    {
      assert xs[..n + 1][..n] == xs[..n];
      g.AddItem(xs[n]);
      n := n + 1;
    }
    assert xs[..n] == xs;
  }
}
