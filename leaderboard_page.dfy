/**
 * The leaderboard page (api/public/leaderboard.js): the English ordinal of a
 * rank, the rows `loadLeaderboard` draws from a reply, the icon each metric
 * gets, the placeholder row of an empty board, the error row, and the button
 * marking. The reply is a parameter.
 */
module LeaderboardPage {
  import opened Wrappers
  import opened JsMath
  import opened Text
  import Leaderboard

  // ----- ordinals -----

  const Suffixes: seq<string> := ["th", "st", "nd", "rd"]

  /** `s[k]`, with `""` for the `undefined` an index outside the array gives (both are falsy). */
  function SuffixAt(k: int): string {
    if 0 <= k < |Suffixes| then Suffixes[k] else ""
  }

  /** `s[(v - 20) % 10] || s[v] || s[0]` with `v = n % 100`. */
  function LookupSuffix(n: int): string {
    var v := TruncRem(n, 100);
    var a := SuffixAt(TruncRem(v - 20, 10));
    var b := SuffixAt(v);
    if a != "" then a else if b != "" then b else Suffixes[0]
  }

  /** `ordinal(n)` */
  function Ordinal(n: int): string {
    IntToString(n) + LookupSuffix(n)
  }

  /** The English suffix of a rank: "st", "nd", "rd" after 1, 2, 3 except in the teens, and "th" else. */
  function EnglishSuffix(n: int): (s: string)
    ensures |s| == 2
  {
    if n >= 0 && n % 10 == 1 && n % 100 != 11 then "st"
    else if n >= 0 && n % 10 == 2 && n % 100 != 12 then "nd"
    else if n >= 0 && n % 10 == 3 && n % 100 != 13 then "rd"
    else "th"
  }

  lemma ModOfMod(n: nat)
    ensures n % 100 % 10 == n % 10
  {
    var q, r := n / 100, n % 100;
    var q', r' := r / 10, r % 10;
    assert n == (10 * q + q') * 10 + r';
    DivUnique(n, 10, 10 * q + q', r');
  }

  /** For whole numbers below 20 the first lookup hits only for 0 and 10, where it finds "th". */
  lemma LowRemainder(v: int)
    requires 0 <= v < 20
    ensures TruncRem(v - 20, 10) <= 0
    ensures TruncRem(v - 20, 10) == 0 <==> v % 10 == 0
  {
    if v == 0 {
      DivUnique(20, 10, 2, 0);
    } else if v < 10 {
      DivUnique(20 - v, 10, 1, 10 - v);
    } else if v == 10 {
      DivUnique(10, 10, 1, 0);
    } else {
      DivUnique(20 - v, 10, 0, 20 - v);
    }
  }

  /** From 20 on, the first lookup reads the last digit. */
  lemma HighRemainder(v: int)
    requires 20 <= v < 100
    ensures TruncRem(v - 20, 10) == v % 10
  {
    var q := v / 10;
    assert v == q * 10 + v % 10;
    assert v - 20 == (q - 2) * 10 + v % 10;
    DivUnique(v - 20, 10, q - 2, v % 10);
  }

  lemma LookupLow(n: nat)
    requires n % 100 < 20
    ensures LookupSuffix(n) == EnglishSuffix(n)
  {
    var v := TruncRem(n, 100);
    assert v == n % 100;
    ModOfMod(n);
    LowRemainder(v);
  }

  lemma LookupHigh(n: nat)
    requires n % 100 >= 20
    ensures LookupSuffix(n) == EnglishSuffix(n)
  {
    var v := TruncRem(n, 100);
    assert v == n % 100;
    ModOfMod(n);
    HighRemainder(v);
  }

  lemma LookupNegative(n: int)
    requires n < 0
    ensures LookupSuffix(n) == EnglishSuffix(n)
  {
    var v := TruncRem(n, 100);
    assert TruncRem(v - 20, 10) <= 0;
  }

  /** `ordinal(n)` is the decimal form of `n` with the English suffix; negative ranks read "th". */
  lemma OrdinalSuffix(n: int)
    ensures Ordinal(n) == IntToString(n) + EnglishSuffix(n)
  {
    if n < 0 {
      LookupNegative(n);
    } else if n % 100 < 20 {
      LookupLow(n);
    } else {
      LookupHigh(n);
    }
  }

  /** The rank tells its number: the ordinal is the decimal form followed by two letters. */
  lemma OrdinalShape(n: int)
    ensures |Ordinal(n)| == |IntToString(n)| + 2
    ensures Ordinal(n)[..|Ordinal(n)| - 2] == IntToString(n)
  {
    OrdinalSuffix(n);
  }

  /** Different ranks read differently. */
  lemma OrdinalInjective(a: int, b: int)
    requires Ordinal(a) == Ordinal(b)
    ensures a == b
  {
    OrdinalShape(a);
    OrdinalShape(b);
    IntToStringInjective(a, b);
  }

  /** The first three ranks and the teens. */
  lemma OrdinalExamples()
    ensures EnglishSuffix(1) == "st" && EnglishSuffix(2) == "nd" && EnglishSuffix(3) == "rd"
    ensures EnglishSuffix(11) == "th" && EnglishSuffix(12) == "th" && EnglishSuffix(13) == "th"
    ensures EnglishSuffix(21) == "st" && EnglishSuffix(112) == "th" && EnglishSuffix(10) == "th"
    ensures Ordinal(1) == "1st"
  {
    OrdinalSuffix(1);
    assert IntToString(1) == "1" by {
      assert NatToString(1) == "1";
    }
  }

  // ----- rows -----

  /** An entry of `data.items`: its `username` (`None` when null or missing) and `value`. */
  datatype JsonItem = JsonItem(username: Option<string>, value: int)

  /**
   * The reply of `/api/leaderboard`: `LbFailed` when the request or its JSON fails
   * or the reply is not ok, else its `items` (`None` when they are not an array).
   */
  datatype LbResponse = LbFailed | LbData(items: Option<seq<JsonItem>>)

  /** A row of `.lbSec`: `makeRow(...)` (with no icon when none is passed) or the error row. */
  datatype Row = PlayerRow(rank: string, username: string, value: int, icon: Option<string>) | ErrorRow

  /** The icon of the rows of `metric`. */
  function IconFor(metric: string): string {
    if metric == "totalhoney" then "./assets/totalHoneyIcon.png"
    else if metric == "uniquehivees" then "./assets/unlockIcon.png"
    else if metric == "totalhivees" then "./assets/totalHivees.png"
    else "./assets/honey.png"
  }

  /** Each of the three metrics has an icon of its own; every other metric shows honey. */
  lemma IconsDiffer(m: string, m': string)
    ensures IconFor(m) == "./assets/honey.png" <==> m !in {"totalhoney", "uniquehivees", "totalhivees"}
    ensures m in {"totalhoney", "uniquehivees", "totalhivees"} && IconFor(m) == IconFor(m') ==> m == m'
  {
  }

  /** `makeRow(rank, it.username, it.value, iconPath)` */
  function MakeRow(rank: int, it: JsonItem, icon: string): Row {
    PlayerRow(Ordinal(rank), it.username.GetOr("Unknown"), it.value, Some(icon))
  }

  /** The rows of the `forEach`, item `i` ranked `i + 1`. */
  function RankedRows(list: seq<JsonItem>, icon: string): seq<Row> {
    seq(|list|, i requires 0 <= i < |list| => MakeRow(i + 1, list[i], icon))
  }

  /** `makeRow(1, "No data yet", 0)` */
  function EmptyRow(): Row {
    PlayerRow(Ordinal(1), "No data yet", 0, None)
  }

  /** The rows `loadLeaderboard` leaves in `.lbSec`. */
  function RowsFor(metric: string, r: LbResponse): seq<Row> {
    match r
    case LbFailed => [ErrorRow]
    case LbData(items) =>
      var list := items.GetOr([]);
      if list == [] then [EmptyRow()] else RankedRows(list, IconFor(metric))
  }

  /**
   * A board with items shows one row per item in the order of the reply, ranked
   * 1st, 2nd, ..., each with the metric's icon and the item's name ("Unknown"
   * when it has none) and value.
   */
  lemma RanksInOrder(metric: string, list: seq<JsonItem>)
    requires list != []
    ensures |RowsFor(metric, LbData(Some(list)))| == |list|
    ensures forall i :: 0 <= i < |list| ==>
              RowsFor(metric, LbData(Some(list)))[i] ==
              PlayerRow(IntToString(i + 1) + EnglishSuffix(i + 1), list[i].username.GetOr("Unknown"),
                        list[i].value, Some(IconFor(metric)))
  {
    var rows := RowsFor(metric, LbData(Some(list)));
    assert rows == RankedRows(list, IconFor(metric));
    forall i | 0 <= i < |list|
      ensures rows[i].rank == IntToString(i + 1) + EnglishSuffix(i + 1)
    {
      OrdinalSuffix(i + 1);
    }
  }

  /** No rank shows twice. */
  lemma RanksDistinct(list: seq<JsonItem>, icon: string, i: nat, j: nat)
    requires i < j < |list|
    ensures |RankedRows(list, icon)| == |list|
    ensures RankedRows(list, icon)[i].rank != RankedRows(list, icon)[j].rank
  {
    OrdinalsDiffer(i + 1, j + 1);
  }

  lemma OrdinalsDiffer(a: int, b: int)
    requires a != b
    ensures Ordinal(a) != Ordinal(b)
  {
    if Ordinal(a) == Ordinal(b) {
      OrdinalInjective(a, b);
    }
  }

  /** An empty board, or items that are not an array, shows the single row "1st" "No data yet" with no icon. */
  lemma EmptyBoard(metric: string, items: Option<seq<JsonItem>>)
    requires items.None? || items.value == []
    ensures RowsFor(metric, LbData(items)) == [PlayerRow("1st", "No data yet", 0, None)]
  {
    OrdinalExamples();
  }

  /** A failed load shows only the error row. */
  lemma FailedBoard(metric: string)
    ensures RowsFor(metric, LbFailed) == [ErrorRow]
  {
  }

  // ----- the selector buttons -----

  /** A `.lb` button by the class its listener tests first. */
  datatype LbButton = HoneyButton | TotalHoneyButton | HiveesButton | TotalHiveesButton | OtherButton

  /** The metric and title a button loads; `None` for a button none of the four classes names. */
  function ButtonBoard(k: LbButton): Option<(string, string)> {
    match k
    case HoneyButton => Some(("honey", "Honey"))
    case TotalHoneyButton => Some(("totalhoney", "Total Honey"))
    case HiveesButton => Some(("uniquehivees", "Unique Hivees"))
    case TotalHiveesButton => Some(("totalhivees", "Total Hivees"))
    case OtherButton => None
  }

  lemma LowerFixed(s: string)
    requires forall i :: 0 <= i < |s| ==> 'a' <= s[i] <= 'z'
    ensures AsciiLower(s) == s
  {
  }

  /** Every board a button asks for is a metric the server takes. */
  lemma ButtonsAskKnownMetrics(k: LbButton)
    requires ButtonBoard(k).Some?
    ensures Leaderboard.ParseMetric(Some(ButtonBoard(k).value.0)) == Some(ButtonBoard(k).value.0)
  {
    var m := ButtonBoard(k).value.0;
    assert m in {"honey", "totalhoney", "uniquehivees", "totalhivees"};
    MetricsLower(m);
    KnownMetric(m);
  }

  /** Every button but the honey one shows an icon of its own. */
  lemma ButtonIcons(k: LbButton)
    requires ButtonBoard(k).Some?
    ensures k.HoneyButton? <==> IconFor(ButtonBoard(k).value.0) == "./assets/honey.png"
  {
  }

  /** The four metric names are written in lower case. */
  lemma MetricsLower(m: string)
    requires m in {"honey", "totalhoney", "uniquehivees", "totalhivees"}
    ensures AsciiLower(m) == m
  {
    if m == "honey" {
      LowerFixed("honey");
    } else if m == "totalhoney" {
      LowerFixed("totalhoney");
    } else if m == "uniquehivees" {
      LowerFixed("uniquehivees");
    } else {
      LowerFixed("totalhivees");
    }
  }

  lemma KnownMetric(m: string)
    requires AsciiLower(m) == m && m in {"honey", "totalhoney", "uniquehivees", "totalhivees"}
    ensures Leaderboard.ParseMetric(Some(m)) == Some(m)
  {
    assert Some(m).GetOr("") == m;
  }

  /** `document.querySelector(".selectedNew")` among the buttons, in document order. */
  function FirstMarked(marked: seq<bool>): (r: Option<nat>)
    ensures r.Some? ==> r.value < |marked| && marked[r.value] && forall j :: 0 <= j < r.value ==> !marked[j]
    ensures r.None? ==> forall j :: 0 <= j < |marked| ==> !marked[j]
  {
    if marked == [] then None
    else if marked[0] then Some(0)
    else
      var r := FirstMarked(marked[1..]);
      if r.Some? then Some(r.value + 1) else None
  }

  /** `markSelected(btn)` */
  function MarkSpec(marked: seq<bool>, btn: nat): seq<bool>
    requires btn < |marked|
  {
    var first := FirstMarked(marked);
    var cleared := if first.Some? then marked[first.value := false] else marked;
    cleared[btn := true]
  }

  predicate AtMostOneMarked(marked: seq<bool>) {
    forall i, j :: 0 <= i < |marked| && 0 <= j < |marked| && marked[i] && marked[j] ==> i == j
  }

  /** With at most one button marked before, exactly the clicked one is marked after. */
  lemma MarkOnlyClicked(marked: seq<bool>, btn: nat)
    requires btn < |marked| && AtMostOneMarked(marked)
    ensures |MarkSpec(marked, btn)| == |marked|
    ensures forall j :: 0 <= j < |marked| ==> (MarkSpec(marked, btn)[j] <==> j == btn)
  {
  }

  // ----- the page -----

  /**
   * What the script changes: whether the selector layout is on, the title, the
   * `selectedNew` mark of each button, whether `.lbSec` shows, and its rows.
   */
  datatype LbView = LbView(selectorMode: bool, title: string, marked: seq<bool>, shown: bool, rows: seq<Row>)

  /** `loadLeaderboard(metric, displayTitle, btn)` run to its end. */
  function LoadSpec(v: LbView, metric: string, displayTitle: string, btn: nat, r: LbResponse): LbView
    requires btn < |v.marked|
  {
    LbView(true, displayTitle + " Leaderboard", MarkSpec(v.marked, btn), true, RowsFor(metric, r))
  }

  /** A click on button `btn` of kind `k`. */
  function ClickSpec(v: LbView, k: LbButton, btn: nat, r: LbResponse): LbView
    requires btn < |v.marked|
  {
    match ButtonBoard(k)
    case None => v
    case Some((metric, title)) => LoadSpec(v, metric, title, btn, r)
  }

  /** Loading a board keeps a single button marked, the clicked one, whatever the reply. */
  lemma LoadKeepsOneMark(v: LbView, metric: string, displayTitle: string, btn: nat, r: LbResponse)
    requires btn < |v.marked| && AtMostOneMarked(v.marked)
    ensures AtMostOneMarked(LoadSpec(v, metric, displayTitle, btn, r).marked)
    ensures LoadSpec(v, metric, displayTitle, btn, r).marked[btn]
    ensures LoadSpec(v, metric, displayTitle, btn, r).rows != []
  {
    MarkOnlyClicked(v.marked, btn);
  }

  class Page {
    var selectorMode: bool
    var title: string
    var marked: seq<bool>
    var shown: bool
    var rows: seq<Row>

    function State(): LbView
      reads this
    {
      LbView(selectorMode, title, marked, shown, rows)
    }

    /** The page as loaded with `buttons` selector buttons, none marked, and the markup's `titleText`. */
    constructor(buttons: nat, titleText: string)
      ensures State() == LbView(false, titleText, seq(buttons, _ => false), false, [])
      ensures AtMostOneMarked(State().marked)
    {
      selectorMode := false;
      title := titleText;
      marked := seq(buttons, _ => false);
      shown := false;
      rows := [];
    }

    /** `switchToSelectorMode()`: nothing once the layout has switched. */
    method SwitchToSelectorMode()
      modifies this
      ensures State() == old(State()).(selectorMode := true)
    {
      if selectorMode {
        return;
      }
      selectorMode := true;
    }

    method MarkSelected(btn: nat)
      requires btn < |marked|
      modifies this
      ensures State() == old(State()).(marked := MarkSpec(old(marked), btn))
    {
      var last := FirstMarked(marked);
      if last.Some? {
        marked := marked[last.value := false];
      }
      marked := marked[btn := true];
    }

    /** `clearEl(lbSec)`: removes the first row until there is none. */
    method ClearRows()
      modifies this
      ensures State() == old(State()).(rows := [])
    {
      while |rows| > 0
        invariant State() == old(State()).(rows := rows)
        decreases |rows|
      {
        rows := rows[1..];
      }
    }

    /** The `forEach` that appends one row per item. */
    method AppendRanked(list: seq<JsonItem>, icon: string)
      modifies this
      ensures State() == old(State()).(rows := old(rows) + RankedRows(list, icon))
    {
      ghost var base := rows;
      for i := 0 to |list|
        invariant State() == old(State()).(rows := rows)
        invariant rows == base + RankedRows(list[..i], icon)
      {
        assert RankedRows(list[..i + 1], icon) == RankedRows(list[..i], icon) + [MakeRow(i + 1, list[i], icon)];
        rows := rows + [MakeRow(i + 1, list[i], icon)];
      }
      assert list[..|list|] == list;
    }

    method LoadLeaderboard(metric: string, displayTitle: string, btn: nat, r: LbResponse)
      requires btn < |marked|
      modifies this
      ensures State() == LoadSpec(old(State()), metric, displayTitle, btn, r)
    {
      SwitchToSelectorMode();
      title := displayTitle + " Leaderboard";
      MarkSelected(btn);
      shown := true;
      ClearRows();
      match r
      case LbFailed =>
        rows := rows + [ErrorRow];
      case LbData(items) =>
        var list := if items.Some? then items.value else [];
        if |list| == 0 {
          rows := rows + [EmptyRow()];
        } else {
          AppendRanked(list, IconFor(metric));
        }
    }

    /** The click listener of a `.lb` button. */
    method OnClick(k: LbButton, btn: nat, r: LbResponse)
      requires btn < |marked|
      modifies this
      ensures State() == ClickSpec(old(State()), k, btn, r)
    {
      match k
      case HoneyButton => LoadLeaderboard("honey", "Honey", btn, r);
      case TotalHoneyButton => LoadLeaderboard("totalhoney", "Total Honey", btn, r);
      case HiveesButton => LoadLeaderboard("uniquehivees", "Unique Hivees", btn, r);
      case TotalHiveesButton => LoadLeaderboard("totalhivees", "Total Hivees", btn, r);
      case OtherButton =>
    }
  }
}
