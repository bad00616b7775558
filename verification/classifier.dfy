/** The rule that guesses which game is being set up from its area, its items
    and the team roster. It can only ever recognise golf. */
module Classifier {
  import opened Wrappers
  import opened Items
  import opened LowerCase

  /** Key of the ball item ("ball"). */
  const Ball: string := "м'яч"
  /** Key of the wooden mallet item ("wooden mallet"). */
  const Mallet: string := "дерев'яний молот"
  /** The only area the rule accepts, in lower case ("indoors"). */
  const Indoor: string := "приміщення"
  /** The only ball shape the rule accepts ("round"). */
  const Round: string := "круглий"
  /** The only title the rule can produce ("golf"). */
  const Golf: string := "гольф"

  /** The teams of a roster that have more than two members. */
  function LargeTeams(roster: map<string, int>): set<string> {
    set t | t in roster && roster[t] > 2
  }

  /** How many roster entries have a member count above two: the length of the
      filtered list of member counts, whatever order the keys are listed in. */
  function CountLarge(roster: map<string, int>): (n: nat)
    ensures n <= |roster|
    ensures forall ks :: KeyOrder(roster, ks) ==> n == CountAbove(ValuesAt(roster, ks))
  {
    SubsetCard(LargeTeams(roster), roster.Keys);
    assert forall ks :: KeyOrder(roster, ks) ==> |LargeTeams(roster)| == CountAbove(ValuesAt(roster, ks)) by {
      forall ks | KeyOrder(roster, ks) ensures |LargeTeams(roster)| == CountAbove(ValuesAt(roster, ks)) {
        FilterLengthIsLargeTeams(roster, ks);
      }
    }
    |LargeTeams(roster)|
  }

  lemma SubsetCard<T>(a: set<T>, b: set<T>)
    requires a <= b
    ensures |a| <= |b|
  {
    assert b == a + (b - a);
  }

  /** The list has no repeated element. */
  predicate Distinct(ks: seq<string>) {
    forall i, j :: 0 <= i < j < |ks| ==> ks[i] != ks[j]
  }

  /** `ks` lists every key of the roster exactly once. */
  predicate KeyOrder(roster: map<string, int>, ks: seq<string>) {
    && Distinct(ks)
    && (forall i :: 0 <= i < |ks| ==> ks[i] in roster)
    && (forall k :: k in roster ==> k in ks)
  }

  /** The member counts of the listed keys, in the order of the list. */
  function ValuesAt(roster: map<string, int>, ks: seq<string>): (vs: seq<int>)
    requires forall i :: 0 <= i < |ks| ==> ks[i] in roster
    ensures |vs| == |ks|
    ensures forall i :: 0 <= i < |ks| ==> vs[i] == roster[ks[i]]
  {
    if ks == [] then [] else [roster[ks[0]]] + ValuesAt(roster, ks[1..])
  }

  /** The number of elements of a list that are above two. */
  function CountAbove(vs: seq<int>): (n: nat)
    ensures n <= |vs|
  {
    if vs == [] then 0 else (if vs[0] > 2 then 1 else 0) + CountAbove(vs[1..])
  }

  /** The listed keys whose member count is above two. */
  function LargeAmong(roster: map<string, int>, ks: seq<string>): set<string> {
    set k | k in ks && k in roster && roster[k] > 2
  }

  /** The large keys of a listing are those of its tail, plus its head if large. */
  lemma LargeAmongCons(roster: map<string, int>, ks: seq<string>)
    requires ks != []
    ensures LargeAmong(roster, ks)
            == (if ks[0] in roster && roster[ks[0]] > 2 then {ks[0]} else {}) + LargeAmong(roster, ks[1..])
  {
    assert forall k :: k in ks <==> k == ks[0] || k in ks[1..];
  }

  /** Every roster has a listing of its keys, each key once, so the tie between
      `CountLarge` and the filtered length always applies. */
  lemma KeyOrderExists(roster: map<string, int>)
    ensures exists ks :: KeyOrder(roster, ks)
    decreases |roster|
  {
    if roster == map[] {
      assert KeyOrder(roster, []);
    } else {
      var k :| k in roster;
      var rest := roster - {k};
      assert rest.Keys + {k} == roster.Keys;
      KeyOrderExists(rest);
      var tail :| KeyOrder(rest, tail);
      KeyOrderCons(roster, k, tail);
    }
  }

  /** A listing of all keys but `k`, with `k` put in front, lists all keys. */
  lemma KeyOrderCons(roster: map<string, int>, k: string, tail: seq<string>)
    requires k in roster
    requires KeyOrder(roster - {k}, tail)
    ensures KeyOrder(roster, [k] + tail)
  {
    var ks := [k] + tail;
    assert forall i :: 1 <= i < |ks| ==> ks[i] == tail[i - 1];
    assert Distinct(ks) by {
      forall i, j | 0 <= i < j < |ks| ensures ks[i] != ks[j] {
        assert ks[j] == tail[j - 1] && ks[j] in roster - {k};
        if i > 0 { assert ks[i] == tail[i - 1]; }
      }
    }
    forall x | x in roster ensures x in ks {
      if x != k { assert x in roster - {k}; }
    }
  }

  /** Counting the large values of a list of distinct keys counts a set of keys. */
  lemma {:induction false} FilterLengthIsLargeAmong(roster: map<string, int>, ks: seq<string>)
    requires Distinct(ks)
    requires forall i :: 0 <= i < |ks| ==> ks[i] in roster
    ensures CountAbove(ValuesAt(roster, ks)) == |LargeAmong(roster, ks)|
  {
    if ks != [] {
      var tail := ks[1..];
      assert Distinct(tail) by {
        forall i, j | 0 <= i < j < |tail| ensures tail[i] != tail[j] {
          assert tail[i] == ks[i + 1] && tail[j] == ks[j + 1];
        }
      }
      FilterLengthIsLargeAmong(roster, tail);
      assert ks[0] !in LargeAmong(roster, tail) by {
        forall i | 0 <= i < |tail| ensures tail[i] != ks[0] {
          assert tail[i] == ks[i + 1];
        }
      }
      LargeAmongCons(roster, ks);
      assert ValuesAt(roster, ks)[1..] == ValuesAt(roster, tail);
    }
  }

  /** The source's filter-and-length count equals the size of `LargeTeams`. */
  lemma FilterLengthIsLargeTeams(roster: map<string, int>, ks: seq<string>)
    requires KeyOrder(roster, ks)
    ensures CountAbove(ValuesAt(roster, ks)) == |LargeTeams(roster)|
  {
    FilterLengthIsLargeAmong(roster, ks);
    assert LargeAmong(roster, ks) == LargeTeams(roster);
  }

  /** The guard chain: no title as soon as one guard fails, golf when all pass
      and there is no wooden mallet, and no title when there is one. */
  function GetGameTitle(area: string, items: map<string, Item>, roster: map<string, int>): (r: Option<string>)
    ensures r == None || r == Some(Golf)
  {
    if Ball !in items then None
    else if CountLarge(roster) == 2 then None
    else if ToLower(area) != Indoor then None
    else if items[Ball].shape != Round then None
    else if Mallet !in items then Some(Golf)
    else None
  }

  /** Every guard that may reject, taken together. */
  predicate GuardsPass(area: string, items: map<string, Item>, roster: map<string, int>) {
    && Ball in items
    && CountLarge(roster) != 2
    && ToLower(area) == Indoor
    && items[Ball].shape == Round
  }

  /** Golf is the answer exactly when every guard passes and no mallet is present. */
  lemma GolfExactlyWhen(area: string, items: map<string, Item>, roster: map<string, int>)
    ensures GetGameTitle(area, items, roster) == Some(Golf)
            <==> GuardsPass(area, items, roster) && Mallet !in items
    ensures GetGameTitle(area, items, roster) == None
            <==> !GuardsPass(area, items, roster) || Mallet in items
  {
  }

  /** Without a ball there is no title, whatever the area and roster. */
  lemma NoBallNoTitle(area: string, items: map<string, Item>, roster: map<string, int>)
    requires Ball !in items
    ensures GetGameTitle(area, items, roster) == None
  {
  }

  /** Exactly two teams with more than two members rule the game out. */
  lemma TwoLargeTeamsNoTitle(area: string, items: map<string, Item>, roster: map<string, int>)
    requires CountLarge(roster) == 2
    ensures GetGameTitle(area, items, roster) == None
  {
  }

  /** An area that is not "indoors" in any casing rules the game out. */
  lemma OutdoorNoTitle(area: string, items: map<string, Item>, roster: map<string, int>)
    requires ToLower(area) != Indoor
    ensures GetGameTitle(area, items, roster) == None
  {
  }

  /** A ball that is not round rules the game out. */
  lemma NotRoundNoTitle(area: string, items: map<string, Item>, roster: map<string, int>)
    requires Ball in items && items[Ball].shape != Round
    ensures GetGameTitle(area, items, roster) == None
  {
  }

  /** A wooden mallet rules the game out even when every other guard passes. */
  lemma MalletBlocksGolf(area: string, items: map<string, Item>, roster: map<string, int>)
    requires GuardsPass(area, items, roster)
    requires Mallet in items
    ensures GetGameTitle(area, items, roster) == None
  {
  }

  /** Two areas that differ only in case get the same answer. */
  lemma AreaCaseInsensitive(a1: string, a2: string, items: map<string, Item>, roster: map<string, int>)
    requires ToLower(a1) == ToLower(a2)
    ensures GetGameTitle(a1, items, roster) == GetGameTitle(a2, items, roster)
  {
  }

  /** Lower-casing the area beforehand never changes the answer. */
  lemma LowerCasedAreaSameTitle(area: string, items: map<string, Item>, roster: map<string, int>)
    ensures GetGameTitle(ToLower(area), items, roster) == GetGameTitle(area, items, roster)
  {
    ToLowerIdempotent(area);
  }

  /** The accepted area is itself in lower case. */
  lemma IndoorIsLower()
    ensures ToLower(Indoor) == Indoor
  {
    ToLowerOfLower(Indoor);
  }

  /** The capitalised spelling "Приміщення" is accepted: only its first letter changes. */
  lemma LowerCapitalised()
    ensures ToLower("Приміщення") == Indoor
  {
    var s := "Приміщення";
    assert s == ['П'] + Indoor[1..];
    ToLowerOfLower(Indoor[1..]);
    assert ToLower(s) == [LowerChar(s[0])] + ToLower(s[1..]);
  }

  /** The all-capitals spelling "ПРИМІЩЕННЯ" is accepted, letter by letter. */
  lemma LowerAllCaps()
    ensures ToLower("ПРИМІЩЕННЯ") == Indoor
  {
    var s := "ПРИМІЩЕННЯ";
    var t := ToLower(s);
    assert t[0] == 'п' && t[1] == 'р' && t[2] == 'и' && t[3] == 'м' && t[4] == 'і';
    assert t[5] == 'щ' && t[6] == 'е' && t[7] == 'н' && t[8] == 'н' && t[9] == 'я';
  }

  /** A roster with exactly two large teams: {a: 5, b: 6, c: 1, d: 1}. */
  lemma TwoOfFourLarge()
    ensures CountLarge(map["a" := 5, "b" := 6, "c" := 1, "d" := 1]) == 2
  {
    var roster := map["a" := 5, "b" := 6, "c" := 1, "d" := 1];
    assert LargeTeams(roster) == {"a", "b"};
  }
}
