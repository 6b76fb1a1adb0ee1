/** One line of free text becomes a task: recognised groups of tokens are taken out, the rest
    is the title. Days are numbered from a Monday, times are minutes of the day. */
module QuickAdd {
  import opened Text

  /** Parsing of numbers, times and written dates, today, and the first and last day of the
      calendar; all local time. */
  datatype World = World(
    lower: string -> string, number: string -> Option<int>, clock: string -> Option<nat>, hour: string -> Option<nat>,
    german: string -> Option<int>, iso: string -> Option<int>, today: int, firstDay: int, lastDay: int)

  datatype Rule = Rule(freq: string, interval: Option<int>, byDay: Option<nat>)

  datatype Group =
    | Project(name: string)
    | Label(name: string)
    | Priority(level: nat)
    | Recurrence(tokens: nat, rule: Rule, weekday: Option<nat>)
    | Time(tokens: nat, minute: nat)
    | Date(tokens: nat, day: int)
    | Word(text: string)

  function Width(g: Group): nat {
    match g
    case Recurrence(n, _, _) => n
    case Time(n, _) => n
    case Date(n, _) => n
    case _ => 1
  }

  // -------------------------------------------------------------- recognisers

  function TrimEndOf(s: string, c: char): string {
    if s != "" && s[|s| - 1] == c then TrimEndOf(s[..|s| - 1], c) else s
  }

  /** `weekday_num`, Monday is 1. */
  function WeekdayOf(lower: string): (r: Option<nat>)
    ensures r.Some? ==> 1 <= r.value <= 7
  {
    var w := TrimEndOf(lower, 's');
    if w in {"montag", "monday", "mo", "mon"} then Some(1)
    else if w in {"dienstag", "tuesday", "di", "tue"} then Some(2)
    else if w in {"mittwoch", "wednesday", "mi", "wed"} then Some(3)
    else if w in {"donnerstag", "thursday", "do", "thu"} then Some(4)
    else if w in {"freitag", "friday", "fr", "fri"} then Some(5)
    else if w in {"samstag", "saturday", "sa", "sat"} then Some(6)
    else if w in {"sonntag", "sunday", "so", "sun"} then Some(7)
    else None
  }

  /** `freq_for_unit`. */
  function FreqOf(unit: string): Option<string> {
    var u := TrimEndOf(unit, 'n');
    if u in {"tag", "tage", "day", "days"} then Some("DAILY")
    else if u in {"woche", "wochen", "week", "weeks"} then Some("WEEKLY")
    else if u in {"monat", "monate", "month", "months"} then Some("MONTHLY")
    else if u in {"jahr", "jahre", "year", "years"} then Some("YEARLY")
    else None
  }

  function Weekday(day: int): nat {
    day % 7 + 1
  }

  /** `next_weekday`. */
  function NextWeekday(today: int, wd: nat): int {
    var delta := wd - Weekday(today);
    today + if delta < 0 then delta + 7 else delta
  }

  /** The least day from today on with that weekday. */
  lemma NextWeekdayIsLeast(today: int, wd: nat)
    requires 1 <= wd <= 7
    ensures today <= NextWeekday(today, wd) < today + 7 && Weekday(NextWeekday(today, wd)) == wd
    ensures forall d :: today <= d && Weekday(d) == wd ==> NextWeekday(today, wd) <= d
  {
  }

  function LowerAt(w: World, ts: seq<string>, i: nat): Option<string> {
    if i < |ts| then Some(w.lower(ts[i])) else None
  }

  /** `parse_recurrence`. */
  function RecurrenceAt(w: World, ts: seq<string>, i: nat): (r: Option<Group>)
    requires i < |ts|
    ensures r.Some? ==> r.value.Recurrence? && 1 <= r.value.tokens <= |ts| - i
    ensures r.Some? && r.value.weekday.Some? ==> 1 <= r.value.weekday.value <= 7
  {
    var t0 := w.lower(ts[i]);
    var t1, t2 := LowerAt(w, ts, i + 1), LowerAt(w, ts, i + 2);
    if t0 in {"alle", "every"} && t1.Some? && w.number(t1.value).Some? && t2.Some? then
      match FreqOf(t2.value)
      case None => None
      case Some(f) =>
        var n := w.number(t1.value).value;
        Some(Recurrence(3, Rule(f, Some(if n < 1 then 1 else n), None), None))
    else if t0 in {"jeden", "jede", "jedes", "every"} then
      if t1.None? then None
      else match WeekdayOf(t1.value)
        case Some(wd) => Some(Recurrence(2, Rule("WEEKLY", None, Some(wd)), Some(wd)))
        case None =>
          (match FreqOf(t1.value) case None => None case Some(f) => Some(Recurrence(2, Rule(f, None, None), None)))
    else if t0 in {"t\U{e4}glich", "taeglich", "daily"} then Some(Recurrence(1, Rule("DAILY", None, None), None))
    else if t0 in {"w\U{f6}chentlich", "woechentlich", "weekly"} then
      Some(Recurrence(1, Rule("WEEKLY", None, None), None))
    else if t0 in {"monatlich", "monthly"} then Some(Recurrence(1, Rule("MONTHLY", None, None), None))
    else if t0 in {"j\U{e4}hrlich", "jaehrlich", "yearly", "annually"} then
      Some(Recurrence(1, Rule("YEARLY", None, None), None))
    else None
  }

  /** `parse_time`. */
  function TimeAt(w: World, ts: seq<string>, i: nat): (r: Option<Group>)
    requires i < |ts|
    ensures r.Some? ==> r.value.Time? && 1 <= r.value.tokens <= |ts| - i
  {
    var lower := w.lower(ts[i]);
    if w.clock(ts[i]).Some? then Some(Time(1, w.clock(ts[i]).value))
    else if i + 1 == |ts| then None
    else
      var own := OrElse(w.clock(ts[i + 1]), w.hour(ts[i + 1]));
      if lower in {"um", "at"} && own.Some? then Some(Time(2, own.value))
      else if w.lower(ts[i + 1]) in {"uhr", "h"} then
        var stem := if lower != "" && lower[|lower| - 1] == 'h' then w.hour(lower[..|lower| - 1]) else None;
        if stem.Some? then Some(Time(1, stem.value))
        else if w.hour(lower).Some? then Some(Time(2, w.hour(lower).value))
        else None
      else None
  }

  /** `parse_date`. */
  function DateAt(w: World, ts: seq<string>, i: nat): (r: Option<Group>)
    requires i < |ts|
    ensures r.Some? ==> r.value.Date? && 1 <= r.value.tokens <= |ts| - i
  {
    var lower := w.lower(ts[i]);
    if lower in {"heute", "today"} then Some(Date(1, w.today))
    else if lower in {"morgen", "tomorrow"} then Some(Date(1, w.today + 1))
    else if lower in {"\U{fc}bermorgen", "uebermorgen"} then Some(Date(1, w.today + 2))
    else if lower in {"gestern", "yesterday"} then Some(Date(1, w.today - 1))
    else if WeekdayOf(lower).Some? then Some(Date(1, NextWeekday(w.today, WeekdayOf(lower).value)))
    else if lower in {"n\U{e4}chste", "naechste", "next"} && i + 1 < |ts| && w.lower(ts[i + 1]) in {"woche", "week"}
    then Some(Date(2, w.today + 7))
    else if lower == "in" && i + 1 < |ts| && w.number(ts[i + 1]).Some?
    then Some(Date(if i + 2 < |ts| then 3 else 2, w.today + w.number(ts[i + 1]).value))
    else
      var prefix := lower in {"am", "on"};
      if prefix && i + 1 == |ts| then None
      else
        var tok := ts[if prefix then i + 1 else i];
        if w.german(tok).Some? then Some(Date(if prefix then 2 else 1, w.german(tok).value))
        else if w.iso(tok).Some? then Some(Date(1, w.iso(tok).value))
        else None
  }

  function PriorityOf(lower: string): Option<nat> {
    if lower == "p1" then Some(1) else if lower == "p2" then Some(2) else if lower == "p3" then Some(3)
    else if lower == "p4" then Some(4) else if lower == "p5" then Some(5) else None
  }

  /** The group that starts at token `i`, in the order the parser tries them. */
  function GroupAt(w: World, ts: seq<string>, i: nat): (g: Group)
    requires i < |ts|
    ensures 1 <= Width(g) <= |ts| - i
    ensures g.Word? ==> g.text == ts[i]
  {
    var tok := ts[i];
    if |tok| > 1 && tok[0] == '#' then Project(tok[1..])
    else if |tok| > 1 && tok[0] in {'@', '%'} then Label(tok[1..])
    else if PriorityOf(w.lower(tok)).Some? then Priority(PriorityOf(w.lower(tok)).value)
    else if RecurrenceAt(w, ts, i).Some? then RecurrenceAt(w, ts, i).value
    else if TimeAt(w, ts, i).Some? then TimeAt(w, ts, i).value
    else if DateAt(w, ts, i).Some? then DateAt(w, ts, i).value
    else Word(tok)
  }

  // --------------------------------------------------------------------- task

  datatype Task = Task(due: Option<(int, nat)>, dueHasTime: bool, priority: Option<nat>,
                       project: Option<string>, labels: seq<string>, rule: Option<Rule>)

  const EMPTY: Task := Task(None, false, None, None, [], None)

  /** Leaving the calendar stops the program. */
  predicate InCalendar(w: World, day: int) {
    w.firstDay <= day <= w.lastDay
  }

  /** The day a group sets, if it sets one. */
  function DayOf(w: World, g: Group): Option<int> {
    match g
    case Recurrence(_, _, Some(wd)) => Some(NextWeekday(w.today, wd))
    case Date(_, day) => Some(day)
    case _ => None
  }

  function Applied(w: World, t: Task, g: Group): Task {
    match g
    case Project(name) => t.(project := Some(name))
    case Label(name) => if name in t.labels then t else t.(labels := t.labels + [name])
    case Priority(level) => t.(priority := Some(level))
    case Recurrence(_, rule, None) => t.(rule := Some(rule))
    case Recurrence(_, rule, Some(wd)) => t.(rule := Some(rule), due := Some((NextWeekday(w.today, wd), 0)))
    case Time(_, minute) =>
      t.(due := Some((match t.due case Some(d) => d.0 case None => w.today, minute)), dueHasTime := true)
    case Date(_, day) =>
      t.(due := Some((day, match t.due case Some(d) => d.1 case None => 0)), dueHasTime := false)
    case Word(_) => t
  }

  function AppliedAll(w: World, gs: seq<Group>): Task {
    if gs == [] then EMPTY else Applied(w, AppliedAll(w, gs[..|gs| - 1]), gs[|gs| - 1])
  }

  function Words(gs: seq<Group>): seq<string> {
    if gs == [] then []
    else Words(gs[..|gs| - 1]) + if gs[|gs| - 1].Word? then [gs[|gs| - 1].text] else []
  }

  function Widths(gs: seq<Group>): nat {
    if gs == [] then 0 else Widths(gs[..|gs| - 1]) + Width(gs[|gs| - 1])
  }

  /** `gs` are the groups of the first tokens: each starts where the one before ends. */
  ghost predicate Grouped(w: World, ts: seq<string>, gs: seq<Group>) {
    && Widths(gs) <= |ts|
    && forall k :: 0 <= k < |gs| ==> Widths(gs[..k]) < |ts| && gs[k] == GroupAt(w, ts, Widths(gs[..k]))
  }

  lemma {:induction false} WidthsGrow(gs: seq<Group>, j: nat, k: nat)
    requires j <= k <= |gs|
    ensures Widths(gs[..j]) <= Widths(gs[..k])
    decreases k
  {
    if j < k {
      assert gs[..k][..k - 1] == gs[..k - 1];
      WidthsGrow(gs, j, k - 1);
    }
  }

  /** The whole line read as groups, from token `i` on. */
  function Reading(w: World, ts: seq<string>, i: nat): seq<Group>
    requires i <= |ts|
    decreases |ts| - i
  {
    if i == |ts| then [] else [GroupAt(w, ts, i)] + Reading(w, ts, i + Width(GroupAt(w, ts, i)))
  }

  lemma ReadingStep(w: World, ts: seq<string>, i: nat)
    requires i < |ts|
    ensures Reading(w, ts, i) == [GroupAt(w, ts, i)] + Reading(w, ts, i + Width(GroupAt(w, ts, i)))
  {
    hide GroupAt, Width;
  }

  lemma WidthsLast(gs: seq<Group>)
    ensures gs == [] ==> Widths(gs) == 0
    ensures gs != [] ==> Widths(gs) == Widths(gs[..|gs| - 1]) + Width(gs[|gs| - 1])
  {
  }

  lemma GroupedFits(w: World, ts: seq<string>, gs: seq<Group>)
    requires Grouped(w, ts, gs)
    ensures Widths(gs) <= |ts|
  {
    hide GroupAt;
  }

  lemma Regrouped(front: seq<Group>, g: Group, rest: seq<Group>)
    ensures front + ([g] + rest) == (front + [g]) + rest
  {
  }

  lemma {:induction false} GroupedIsPrefix(w: World, ts: seq<string>, gs: seq<Group>)
    requires Grouped(w, ts, gs)
    ensures Widths(gs) <= |ts| && Reading(w, ts, 0) == gs + Reading(w, ts, Widths(gs))
    decreases |gs|
  {
    hide GroupAt, Width, Widths, Grouped, Reading;
    GroupedFits(w, ts, gs);
    WidthsLast(gs);
    if gs == [] {
      assert [] + Reading(w, ts, 0) == Reading(w, ts, 0);
    } else {
      var front, g := gs[..|gs| - 1], gs[|gs| - 1];
      GroupedFront(w, ts, gs);
      GroupedIsPrefix(w, ts, front);
      ReadingStep(w, ts, Widths(front));
      Regrouped(front, g, Reading(w, ts, Widths(gs)));
      assert gs == front + [g];
    }
  }

  lemma GroupedFront(w: World, ts: seq<string>, gs: seq<Group>)
    requires Grouped(w, ts, gs) && gs != []
    ensures Grouped(w, ts, gs[..|gs| - 1]) && Widths(gs[..|gs| - 1]) < |ts|
    ensures gs[|gs| - 1] == GroupAt(w, ts, Widths(gs[..|gs| - 1]))
  {
    hide GroupAt, Widths;
    var n := |gs| - 1;
    assert forall k :: 0 <= k <= n ==> gs[..n][..k] == gs[..k];
  }

  /** `parse`: the title's words and the task, or None where a day leaves the calendar. The
      groups are returned for the record. */
  method Parse(ts: seq<string>, w: World) returns (title: seq<string>, task: Option<Task>, groups: seq<Group>)
    ensures Grouped(w, ts, groups)
    ensures title == Words(groups)
    ensures task.Some? ==> Widths(groups) == |ts| && task.value == AppliedAll(w, groups)
    ensures task.Some? ==> groups == Reading(w, ts, 0)
    ensures task.Some? <==> forall g :: g in Reading(w, ts, 0) && DayOf(w, g).Some? ==> InCalendar(w, DayOf(w, g).value)
  {
    hide GroupAt, Width, DayOf, Applied, Words, AppliedAll, Widths, Grouped, Reading;
    title, groups := [], [];
    var out, i := EMPTY, 0;
    NoGroups(w, ts);
    while i < |ts|
      invariant i == Widths(groups) <= |ts| && Grouped(w, ts, groups)
      invariant title == Words(groups) && out == AppliedAll(w, groups)
      invariant forall g :: g in groups && DayOf(w, g).Some? ==> InCalendar(w, DayOf(w, g).value)
      decreases |ts| - i
    {
      var g := GroupAt(w, ts, i);
      GroupedSnoc(w, ts, groups, g);
      ghost var before := groups;
      groups := groups + [g];
      assert g in groups && forall x :: x in groups ==> x in before || x == g;
      var day := DayOf(w, g);
      if g.Word? {
        title := title + [g.text];
      }
      if day.Some? && !InCalendar(w, day.value) {
        GroupedIsPrefix(w, ts, groups);
        return title, None, groups;
      }
      out := Applied(w, out, g);
      i := i + Width(g);
    }
    GroupedIsPrefix(w, ts, groups);
    ReadingEnd(w, ts);
    assert groups + [] == groups;
    task := Some(out);
  }

  lemma ReadingEnd(w: World, ts: seq<string>)
    ensures Reading(w, ts, |ts|) == []
  {
  }

  lemma NoGroups(w: World, ts: seq<string>)
    ensures Grouped(w, ts, []) && Widths([]) == 0 && Words([]) == [] && AppliedAll(w, []) == EMPTY
  {
  }

  lemma GroupedSnoc(w: World, ts: seq<string>, gs: seq<Group>, g: Group)
    requires Grouped(w, ts, gs) && Widths(gs) < |ts| && g == GroupAt(w, ts, Widths(gs))
    ensures Grouped(w, ts, gs + [g])
    ensures Widths(gs + [g]) == Widths(gs) + Width(g) && Widths(gs + [g]) <= |ts|
    ensures Words(gs + [g]) == if g.Word? then Words(gs) + [g.text] else Words(gs)
    ensures AppliedAll(w, gs + [g]) == Applied(w, AppliedAll(w, gs), g)
  {
    hide GroupAt, Width, Applied, Grouped;
    var all := gs + [g];
    assert all[..|gs|] == gs;
    assert Words(gs) + [] == Words(gs);
    WidthFits(w, ts, Widths(gs));
    GroupedLonger(w, ts, gs, g);
  }

  lemma WidthFits(w: World, ts: seq<string>, i: nat)
    requires i < |ts|
    ensures i + Width(GroupAt(w, ts, i)) <= |ts|
  {
    hide GroupAt;
  }

  lemma GroupedLonger(w: World, ts: seq<string>, gs: seq<Group>, g: Group)
    requires Grouped(w, ts, gs) && Widths(gs) < |ts| && g == GroupAt(w, ts, Widths(gs)) && Widths(gs + [g]) <= |ts|
    ensures Grouped(w, ts, gs + [g])
  {
    hide GroupAt, Widths;
    var all := gs + [g];
    forall k | 0 <= k < |all|
      ensures Widths(all[..k]) < |ts| && all[k] == GroupAt(w, ts, Widths(all[..k]))
    {
      assert all[..k] == if k < |gs| then gs[..k] else gs;
    }
  }

  // ------------------------------------------------------------- conservation

  /** Token `j` belongs to group `k`. */
  predicate InGroup(gs: seq<Group>, k: nat, j: nat)
    requires k < |gs|
  {
    Widths(gs[..k]) <= j < Widths(gs[..k + 1])
  }

  /** Every token is in exactly one group, and it is a word of the title exactly when that
      group is a word. */
  lemma {:induction false} TokensAreConserved(w: World, ts: seq<string>, gs: seq<Group>, j: nat)
    requires Grouped(w, ts, gs) && j < Widths(gs)
    ensures exists k :: 0 <= k < |gs| && InGroup(gs, k, j) && (gs[k].Word? ==> gs[k].text == ts[j])
    ensures forall k, l :: 0 <= k < |gs| && 0 <= l < |gs| && InGroup(gs, k, j) && InGroup(gs, l, j) ==> k == l
  {
    hide GroupAt;
    var k := FindGroup(gs, j);
    assert gs[..k + 1][..k] == gs[..k];
    forall a, b | 0 <= a < b < |gs| && InGroup(gs, a, j)
      ensures !InGroup(gs, b, j)
    {
      WidthsGrow(gs, a + 1, b);
    }
  }

  lemma {:induction false} FindGroup(gs: seq<Group>, j: nat) returns (k: nat)
    requires j < Widths(gs)
    ensures k < |gs| && InGroup(gs, k, j)
  {
    hide Width;
    var n := |gs| - 1;
    assert gs[..|gs|] == gs;
    if Widths(gs[..n]) <= j {
      k := n;
    } else {
      k := FindGroup(gs[..n], j);
      assert gs[..n][..k] == gs[..k] && gs[..n][..k + 1] == gs[..k + 1];
    }
  }

  /** Where the words of the title stand in the line. */
  function TitlePlaces(gs: seq<Group>): seq<nat> {
    if gs == [] then []
    else
      var n := |gs| - 1;
      TitlePlaces(gs[..n]) + if gs[n].Word? then [Widths(gs[..n])] else []
  }

  lemma TitleStep(w: World, ts: seq<string>, gs: seq<Group>)
    requires Grouped(w, ts, gs) && gs != []
    ensures var front, last := gs[..|gs| - 1], gs[|gs| - 1];
            && Grouped(w, ts, front) && Widths(gs) == Widths(front) + Width(last) && Widths(front) < |ts|
            && (last.Word? ==> last.text == ts[Widths(front)])
            && Words(gs) == Words(front) + (if last.Word? then [last.text] else [])
            && TitlePlaces(gs) == TitlePlaces(front) + (if last.Word? then [Widths(front)] else [])
  {
    hide GroupAt, Grouped;
    GroupedFront(w, ts, gs);
  }

  /** The title is the tokens at its places, in input order. */
  lemma {:induction false} TitleIsTheRest(w: World, ts: seq<string>, gs: seq<Group>)
    requires Grouped(w, ts, gs)
    ensures var places := TitlePlaces(gs);
            && |Words(gs)| == |places|
            && (forall x :: 0 <= x < |places| ==> places[x] < Widths(gs) <= |ts| && Words(gs)[x] == ts[places[x]])
            && (forall x, y :: 0 <= x < y < |places| ==> places[x] < places[y])
    decreases |gs|
  {
    GroupedFits(w, ts, gs);
    if gs == [] {
      assert Words(gs) == [] && TitlePlaces(gs) == [];
    } else {
      hide GroupAt, Grouped, Words, TitlePlaces, Widths;
      TitleStep(w, ts, gs);
      TitleIsTheRest(w, ts, gs[..|gs| - 1]);
    }
  }

  lemma {:induction false} PlacesIff(gs: seq<Group>, j: nat)
    ensures j in TitlePlaces(gs) <==> exists k :: 0 <= k < |gs| && gs[k].Word? && Widths(gs[..k]) == j
    decreases |gs|
  {
    hide Width, Widths;
    if gs != [] {
      var n := |gs| - 1;
      PlacesIff(gs[..n], j);
      assert forall k :: 0 <= k < n ==> gs[..n][..k] == gs[..k] && gs[..n][k] == gs[k];
    }
  }

  /** A token is in the title exactly when its group is a word. */
  lemma InTitleIff(gs: seq<Group>, k: nat, j: nat)
    requires k < |gs| && InGroup(gs, k, j)
    ensures j in TitlePlaces(gs) <==> gs[k].Word?
  {
    hide Widths;
    PlacesIff(gs, j);
    OneMore(gs, k);
    if j in TitlePlaces(gs) {
      var l :| 0 <= l < |gs| && gs[l].Word? && Widths(gs[..l]) == j;
      OneMore(gs, l);
      if l < k {
        WidthsGrow(gs, l + 1, k);
      }
      if k < l {
        WidthsGrow(gs, k + 1, l);
      }
    }
  }

  lemma OneMore(gs: seq<Group>, k: nat)
    requires k < |gs|
    ensures Widths(gs[..k + 1]) == Widths(gs[..k]) + Width(gs[k])
  {
    assert gs[..k + 1][..k] == gs[..k];
  }

  // -------------------------------------------------------------- date and time

  lemma TimeAtTheEnd(gs: seq<Group>)
    requires gs != [] && gs[|gs| - 1].Time?
    ensures exists k :: 0 <= k < |gs| && gs[k].Time? && forall l :: k < l < |gs| ==> !gs[l].Date?
  {
    var k := |gs| - 1;
    assert gs[k].Time?;
  }

  /** The task says it has a time exactly when a time was recognised and no date after it:
      "14:30 morgen" keeps the time but loses the mark. */
  lemma {:induction false} HasTimeExactlyWhen(w: World, gs: seq<Group>)
    ensures AppliedAll(w, gs).dueHasTime <==>
      exists k :: 0 <= k < |gs| && gs[k].Time? && forall l :: k < l < |gs| ==> !gs[l].Date?
    decreases |gs|
  {
    if gs != [] {
      var n := |gs| - 1;
      HasTimeExactlyWhen(w, gs[..n]);
      var p := exists k :: 0 <= k < n && gs[..n][k].Time? && forall l :: k < l < n ==> !gs[..n][l].Date?;
      if p && !gs[n].Date? {
        var k :| 0 <= k < n && gs[..n][k].Time? && forall l :: k < l < n ==> !gs[..n][l].Date?;
        assert gs[k].Time? && forall l :: k < l < |gs| ==> !gs[l].Date? by {
          assert forall l :: k < l < n ==> gs[l] == gs[..n][l];
        }
      }
      if gs[n].Time? {
        TimeAtTheEnd(gs);
      }
      forall k | 0 <= k < n && gs[k].Time? && forall l :: k < l < |gs| ==> !gs[l].Date?
        ensures p
      {
        assert gs[..n][k].Time? && forall l :: k < l < n ==> !gs[..n][l].Date?;
      }
    }
  }

  function LastDay(w: World, gs: seq<Group>): Option<int> {
    if gs == [] then None
    else OrElse(DayOf(w, gs[|gs| - 1]), LastDay(w, gs[..|gs| - 1]))
  }

  /** The last time, unless a weekday recurrence came after it. */
  function LastMinute(gs: seq<Group>): nat {
    if gs == [] then 0
    else
      var last := gs[|gs| - 1];
      if last.Time? then last.minute
      else if last.Recurrence? && last.weekday.Some? then 0
      else LastMinute(gs[..|gs| - 1])
  }

  predicate HasTime(gs: seq<Group>) {
    exists k :: 0 <= k < |gs| && gs[k].Time?
  }

  /** Date and time may come in either order: the due moment is the last day named, today if
      none is, at the last time. */
  lemma {:induction false} DueIsLastDayAtLastTime(w: World, gs: seq<Group>)
    ensures AppliedAll(w, gs).due ==
      match LastDay(w, gs)
      case Some(day) => Some((day, LastMinute(gs)))
      case None => if HasTime(gs) then Some((w.today, LastMinute(gs))) else None
    decreases |gs|
  {
    hide NextWeekday;
    if gs != [] {
      var n := |gs| - 1;
      DueIsLastDayAtLastTime(w, gs[..n]);
      assert HasTime(gs) <==> HasTime(gs[..n]) || gs[n].Time? by {
        if HasTime(gs[..n]) {
          var k :| 0 <= k < n && gs[..n][k].Time?;
          assert gs[k].Time?;
        }
        if HasTime(gs) {
          var k :| 0 <= k < |gs| && gs[k].Time?;
          assert k < n ==> gs[..n][k].Time?;
        }
      }
      NoTimeIsMidnight(w, gs[..n]);
    }
  }

  lemma {:induction false} NoTimeIsMidnight(w: World, gs: seq<Group>)
    ensures !HasTime(gs) ==> LastMinute(gs) == 0
    decreases |gs|
  {
    if gs != [] {
      var n := |gs| - 1;
      NoTimeIsMidnight(w, gs[..n]);
      if HasTime(gs[..n]) {
        var k :| 0 <= k < n && gs[..n][k].Time?;
        assert gs[k].Time?;
      }
      assert gs[n].Time? ==> HasTime(gs);
    }
  }

  function LastTime(gs: seq<Group>): nat
    requires HasTime(gs)
    decreases |gs|
  {
    var n := |gs| - 1;
    if gs[n].Time? then gs[n].minute
    else
      assert forall k :: 0 <= k < n ==> gs[..n][k] == gs[k];
      LastTime(gs[..n])
  }

  /** What was recognised after the last time. */
  function AfterLastTime(gs: seq<Group>): seq<Group> {
    if gs == [] || gs[|gs| - 1].Time? then [] else AfterLastTime(gs[..|gs| - 1]) + [gs[|gs| - 1]]
  }

  predicate DateAfter(gs: seq<Group>) {
    exists g :: g in AfterLastTime(gs) && g.Date?
  }

  predicate WeekdayAfter(gs: seq<Group>) {
    exists g :: g in AfterLastTime(gs) && g.Recurrence? && g.weekday.Some?
  }

  lemma AfterStep(gs: seq<Group>)
    requires gs != [] && !gs[|gs| - 1].Time?
    ensures var last, front := gs[|gs| - 1], gs[..|gs| - 1];
            && (DateAfter(gs) <==> DateAfter(front) || last.Date?)
            && (WeekdayAfter(gs) <==> WeekdayAfter(front) || (last.Recurrence? && last.weekday.Some?))
            && (HasTime(gs) <==> HasTime(front))
  {
    var last, front := gs[|gs| - 1], gs[..|gs| - 1];
    assert forall g :: g in AfterLastTime(gs) <==> g in AfterLastTime(front) || g == last;
    assert last in AfterLastTime(gs);
    assert forall k :: 0 <= k < |front| ==> front[k] == gs[k];
  }

  lemma {:induction false} MarkAndMinute(w: World, gs: seq<Group>)
    requires HasTime(gs)
    ensures var t := AppliedAll(w, gs);
            && t.due.Some?
            && (t.dueHasTime <==> !DateAfter(gs))
            && t.due.value.1 == if WeekdayAfter(gs) then 0 else LastTime(gs)
    decreases |gs|
  {
    assert gs != [];
    hide NextWeekday, HasTime, DateAfter, WeekdayAfter;
    var n := |gs| - 1;
    if gs[n].Time? {
      NothingAfter(gs);
    } else {
      AfterStep(gs);
      MarkAndMinute(w, gs[..n]);
    }
  }

  lemma NothingAfter(gs: seq<Group>)
    requires gs != [] && gs[|gs| - 1].Time?
    ensures !DateAfter(gs) && !WeekdayAfter(gs)
  {
    assert AfterLastTime(gs) == [];
  }

  /** In a line with a time (midnight aside), the task is marked with one but due at another
      minute exactly when a weekday recurrence and no date came after it; and it is due at the
      time but not marked exactly when a date and no such recurrence did. */
  lemma MarkMisleadsIff(w: World, gs: seq<Group>)
    requires HasTime(gs)
    ensures var t, midnight := AppliedAll(w, gs), LastTime(gs) == 0;
            && t.due.Some?
            && (t.dueHasTime && t.due.value.1 != LastTime(gs) <==> WeekdayAfter(gs) && !DateAfter(gs) && !midnight)
            && (!t.dueHasTime && t.due.value.1 == LastTime(gs) <==> DateAfter(gs) && (!WeekdayAfter(gs) || midnight))
  {
    hide AppliedAll, LastTime, DateAfter, WeekdayAfter;
    MarkAndMinute(w, gs);
  }

  lemma JedenFreitag(w: World, ts: seq<string>, i: nat)
    requires i + 2 == |ts| && ts[i] == "jeden" && ts[i + 1] == "freitag"
    requires w.lower("jeden") == "jeden" && w.lower("freitag") == "freitag"
    ensures GroupAt(w, ts, i) == Recurrence(2, Rule("WEEKLY", None, Some(5)), Some(5))
  {
    hide TimeAt, DateAt, FreqOf;
    assert WeekdayOf("freitag") == Some(5);
  }

  lemma ClockTime(w: World, ts: seq<string>, i: nat, minute: nat)
    requires i < |ts| && ts[i] == "14:30" && w.lower("14:30") == "14:30" && w.clock("14:30") == Some(minute)
    ensures GroupAt(w, ts, i) == Time(1, minute)
  {
    hide DateAt, FreqOf, WeekdayOf;
  }

  /** "14:30 jeden freitag" is due at midnight and marked with a time. */
  lemma FridayAtMidnight(w: World, minute: nat)
    requires w.clock("14:30") == Some(minute) && w.lower("14:30") == "14:30"
    requires w.lower("jeden") == "jeden" && w.lower("freitag") == "freitag"
    ensures var ts := ["14:30", "jeden", "freitag"];
            var gs := [Time(1, minute), Recurrence(2, Rule("WEEKLY", None, Some(5)), Some(5))];
            && Grouped(w, ts, gs) && Widths(gs) == |ts|
            && AppliedAll(w, gs).dueHasTime && AppliedAll(w, gs).due == Some((NextWeekday(w.today, 5), 0))
  {
    hide NextWeekday, GroupAt, Grouped, Widths, AppliedAll, Applied, Words;
    var ts := ["14:30", "jeden", "freitag"];
    var time, rule := Time(1, minute), Recurrence(2, Rule("WEEKLY", None, Some(5)), Some(5));
    ClockTime(w, ts, 0, minute);
    JedenFreitag(w, ts, 1);
    TwoGroups(w, ts, time, rule);
    AppliedTwo(w, minute, rule);
  }

  lemma TwoGroups(w: World, ts: seq<string>, a: Group, b: Group)
    requires |ts| >= 2 && a == GroupAt(w, ts, 0) && Width(a) == 1 && b == GroupAt(w, ts, 1)
    ensures Grouped(w, ts, [a, b]) && Widths([a, b]) == 1 + Width(b)
  {
    hide GroupAt, Grouped, Widths, AppliedAll, Applied, Words, Width;
    NoGroups(w, ts);
    GroupedSnoc(w, ts, [], a);
    assert [] + [a] == [a] && [a] + [b] == [a, b];
    GroupedSnoc(w, ts, [a], b);
  }

  lemma AppliedTwo(w: World, minute: nat, g: Group)
    requires g.Recurrence? && g.weekday.Some?
    ensures var t := AppliedAll(w, [Time(1, minute), g]);
            t.dueHasTime && t.due == Some((NextWeekday(w.today, g.weekday.value), 0))
  {
    hide NextWeekday;
    var gs := [Time(1, minute), g];
    assert gs[..1] == [Time(1, minute)] && [Time(1, minute)][..0] == [];
  }

  lemma LabelStep(w: World, gs: seq<Group>)
    requires gs != []
    ensures var last, before := gs[|gs| - 1], AppliedAll(w, gs[..|gs| - 1]).labels;
            AppliedAll(w, gs).labels == if last.Label? && last.name !in before then before + [last.name] else before
  {
    hide NextWeekday;
  }

  /** Every label once, and exactly the labels written. */
  lemma {:induction false} LabelsAreDistinct(w: World, gs: seq<Group>)
    ensures var l := AppliedAll(w, gs).labels; forall i, j :: 0 <= i < j < |l| ==> l[i] != l[j]
    ensures forall x :: x in AppliedAll(w, gs).labels <==> Label(x) in gs
    decreases |gs|
  {
    if gs == [] {
      assert AppliedAll(w, gs).labels == [];
    } else {
      hide AppliedAll, Applied;
      var n := |gs| - 1;
      LabelStep(w, gs);
      LabelsAreDistinct(w, gs[..n]);
      assert gs == gs[..n] + [gs[n]];
    }
  }

  /** The token is taken as a project or label before anything else is tried. */
  predicate Marked(tok: string) {
    |tok| > 1 && tok[0] in {'#', '@', '%'}
  }

  // ------------------------------------------------- what a line may say

  /** It is no mark, no priority, no recurrence and no time. */
  predicate Unclaimed(w: World, ts: seq<string>, i: nat)
    requires i < |ts|
  {
    !Marked(ts[i]) && PriorityOf(w.lower(ts[i])).None? && RecurrenceAt(w, ts, i).None? && TimeAt(w, ts, i).None?
  }

  /** The relative days, wherever they stand. */
  lemma RelativeDays(w: World, ts: seq<string>, i: nat)
    requires i < |ts| && Unclaimed(w, ts, i)
    ensures var l := w.lower(ts[i]);
            && (l in {"heute", "today"} ==> GroupAt(w, ts, i) == Date(1, w.today))
            && (l in {"morgen", "tomorrow"} ==> GroupAt(w, ts, i) == Date(1, w.today + 1))
            && (l in {"\U{fc}bermorgen", "uebermorgen"} ==> GroupAt(w, ts, i) == Date(1, w.today + 2))
            && (l in {"gestern", "yesterday"} ==> GroupAt(w, ts, i) == Date(1, w.today - 1))
            && (l in {"n\U{e4}chste", "naechste", "next"} && i + 1 < |ts| && w.lower(ts[i + 1]) in {"woche", "week"}
                ==> GroupAt(w, ts, i) == Date(2, w.today + 7))
  {
    hide TimeAt, FreqOf, RecurrenceAt, PriorityOf, WeekdayOf, NextWeekday;
    NoWeekdays();
  }

  /** Written dates, alone or after "am"; of an ISO date only "am" is taken, and the date itself
      is read next. */
  lemma WrittenDates(w: World, ts: seq<string>, i: nat)
    requires i < |ts| && Unclaimed(w, ts, i) && WeekdayOf(w.lower(ts[i])).None?
    ensures w.lower(ts[i]) in {"am", "on"} && i + 1 < |ts| && w.german(ts[i + 1]).Some? ==>
      GroupAt(w, ts, i) == Date(2, w.german(ts[i + 1]).value)
    ensures w.lower(ts[i]) in {"am", "on"} && i + 1 < |ts| && w.german(ts[i + 1]).None? && w.iso(ts[i + 1]).Some? ==>
      GroupAt(w, ts, i) == Date(1, w.iso(ts[i + 1]).value)
    ensures w.lower(ts[i]) in {"am", "on"} && i + 1 == |ts| ==> GroupAt(w, ts, i) == Word(ts[i])
    ensures w.lower(ts[i]) != "" && '0' <= w.lower(ts[i])[0] <= '9' ==>
      GroupAt(w, ts, i) == (if w.german(ts[i]).Some? then Date(1, w.german(ts[i]).value)
                            else if w.iso(ts[i]).Some? then Date(1, w.iso(ts[i]).value) else Word(ts[i]))
  {
    hide TimeAt, FreqOf, RecurrenceAt, PriorityOf, WeekdayOf, NextWeekday;
    var l := w.lower(ts[i]);
    assert l != "" && '0' <= l[0] <= '9' ==>
      l !in {"heute", "today", "morgen", "tomorrow", "\U{fc}bermorgen", "uebermorgen", "gestern", "yesterday", "in",
             "am", "on", "n\U{e4}chste", "naechste", "next"};
  }

  lemma NoWeekdays()
    ensures forall l :: l in {"n\U{e4}chste", "naechste", "next"} ==> WeekdayOf(l).None?
  {
    assert TrimEndOf("n\U{e4}chste", 's') == "n\U{e4}chste" && TrimEndOf("naechste", 's') == "naechste";
    assert TrimEndOf("next", 's') == "next";
  }

  /** A weekday, by any of its names, is its next occurrence, today included. */
  lemma WeekdaysAre(w: World, ts: seq<string>, i: nat, wd: nat)
    requires i < |ts| && Unclaimed(w, ts, i) && 1 <= wd <= 7
    requires NamesWeekday(w.lower(ts[i]), wd)
    ensures var g := GroupAt(w, ts, i);
            && g.Date? && g.tokens == 1 && w.today <= g.day < w.today + 7 && Weekday(g.day) == wd
  {
    hide TimeAt, FreqOf, RecurrenceAt, PriorityOf, WeekdayOf, NextWeekday, Weekday, NamesWeekday;
    NamesAreWeekdays(w.lower(ts[i]), wd);
    RelativeIsNoWeekday(w.lower(ts[i]));
    NextWeekdayIsLeast(w.today, wd);
  }

  function WeekdayStems(wd: nat): set<string>
    requires 1 <= wd <= 7
  {
    [{"montag", "monday", "mo", "mon"}, {"dienstag", "tuesday", "di", "tue"}, {"mittwoch", "wednesday", "mi", "wed"},
     {"donnerstag", "thursday", "do", "thu"}, {"freitag", "friday", "fr", "fri"}, {"samstag", "saturday", "sa", "sat"},
     {"sonntag", "sunday", "so", "sun"}][wd - 1]
  }

  /** A name of the weekday, or its plural. */
  predicate NamesWeekday(l: string, wd: nat)
    requires 1 <= wd <= 7
  {
    l in WeekdayStems(wd) || (l != "" && l[|l| - 1] == 's' && l[..|l| - 1] in WeekdayStems(wd))
  }

  lemma TrimOne(s: string, c: char)
    requires s == "" || s[|s| - 1] != c
    ensures TrimEndOf(s, c) == s && TrimEndOf(s + [c], c) == s
  {
    assert (s + [c])[..|s|] == s;
  }

  lemma StemEnds(l: string, wd: nat)
    requires 1 <= wd <= 7 && l in WeekdayStems(wd)
    ensures l != "" && l[|l| - 1] != 's'
  {
  }

  lemma StemIsWeekday(l: string, wd: nat)
    requires 1 <= wd <= 7 && l in WeekdayStems(wd) && TrimEndOf(l, 's') == l
    ensures WeekdayOf(l) == Some(wd)
  {
    hide TrimEndOf;
  }

  lemma NamesAreWeekdays(l: string, wd: nat)
    requires 1 <= wd <= 7 && NamesWeekday(l, wd)
    ensures WeekdayOf(l) == Some(wd)
  {
    hide TrimEndOf, WeekdayStems;
    if l in WeekdayStems(wd) {
      StemEnds(l, wd);
      TrimOne(l, 's');
      StemIsWeekday(l, wd);
    } else {
      var n := l[..|l| - 1];
      StemEnds(n, wd);
      TrimOne(n, 's');
      StemIsWeekday(n, wd);
      assert l == n + ['s'];
    }
  }

  lemma RelativeIsNoWeekday(l: string)
    ensures l in {"heute", "today", "morgen", "tomorrow", "\U{fc}bermorgen", "uebermorgen", "gestern", "yesterday"} ==>
      WeekdayOf(l).None?
  {
    hide TrimEndOf;
    if l in {"heute", "today", "morgen", "tomorrow", "\U{fc}bermorgen", "uebermorgen", "gestern", "yesterday"} {
      TrimOne(l, 's');
    }
  }

  /** Priorities, projects and labels, wherever they stand. */
  lemma MarksAre(w: World, ts: seq<string>, i: nat)
    requires i < |ts| && |ts[i]| > 1
    ensures ts[i][0] == '#' ==> GroupAt(w, ts, i) == Project(ts[i][1..])
    ensures ts[i][0] in {'@', '%'} ==> GroupAt(w, ts, i) == Label(ts[i][1..])
    ensures !Marked(ts[i]) ==>
      && (w.lower(ts[i]) == "p1" ==> GroupAt(w, ts, i) == Priority(1))
      && (w.lower(ts[i]) == "p2" ==> GroupAt(w, ts, i) == Priority(2))
      && (w.lower(ts[i]) == "p3" ==> GroupAt(w, ts, i) == Priority(3))
      && (w.lower(ts[i]) == "p4" ==> GroupAt(w, ts, i) == Priority(4))
      && (w.lower(ts[i]) == "p5" ==> GroupAt(w, ts, i) == Priority(5))
  {
    hide RecurrenceAt, TimeAt, DateAt;
  }

  /** The units of time and the frequencies they stand for. */
  const UNITS: map<string, string> :=
    map["tag" := "DAILY", "tage" := "DAILY", "day" := "DAILY", "days" := "DAILY",
        "woche" := "WEEKLY", "week" := "WEEKLY", "weeks" := "WEEKLY",
        "monat" := "MONTHLY", "monate" := "MONTHLY", "month" := "MONTHLY", "months" := "MONTHLY",
        "jahr" := "YEARLY", "jahre" := "YEARLY", "year" := "YEARLY", "years" := "YEARLY"]

  /** A unit, or its plural with "n". */
  predicate NamesUnit(l: string, freq: string) {
    || (l in UNITS && UNITS[l] == freq)
    || (l != "" && l[|l| - 1] == 'n' && l[..|l| - 1] in UNITS && UNITS[l[..|l| - 1]] == freq)
  }

  lemma UnitEnds(l: string)
    requires l in UNITS
    ensures l != "" && l[|l| - 1] != 'n'
  {
  }

  lemma UnitIs(l: string)
    requires l in UNITS && TrimEndOf(l, 'n') == l
    ensures FreqOf(l) == Some(UNITS[l])
  {
    hide TrimEndOf;
  }

  lemma UnitsAre(l: string, freq: string)
    requires NamesUnit(l, freq)
    ensures FreqOf(l) == Some(freq)
  {
    hide TrimEndOf;
    if l in UNITS && UNITS[l] == freq {
      UnitEnds(l);
      TrimOne(l, 'n');
      UnitIs(l);
    } else {
      var n := l[..|l| - 1];
      UnitEnds(n);
      TrimOne(n, 'n');
      UnitIs(n);
      assert l == n + ['n'];
    }
  }

  /** One-word rules. */
  lemma DailyToYearly(w: World, ts: seq<string>, i: nat)
    requires i < |ts| && !Marked(ts[i])
    ensures var l := w.lower(ts[i]);
            && (l in {"t\U{e4}glich", "taeglich", "daily"} ==>
                  GroupAt(w, ts, i) == Recurrence(1, Rule("DAILY", None, None), None))
            && (l in {"w\U{f6}chentlich", "woechentlich", "weekly"} ==>
                  GroupAt(w, ts, i) == Recurrence(1, Rule("WEEKLY", None, None), None))
            && (l in {"monatlich", "monthly"} ==> GroupAt(w, ts, i) == Recurrence(1, Rule("MONTHLY", None, None), None))
            && (l in {"j\U{e4}hrlich", "jaehrlich", "yearly", "annually"} ==>
                  GroupAt(w, ts, i) == Recurrence(1, Rule("YEARLY", None, None), None))
  {
    hide TimeAt, DateAt, FreqOf, WeekdayOf;
  }

  /** "jeden" and a weekday, or a unit that is none. */
  lemma EveryOne(w: World, ts: seq<string>, i: nat)
    requires i + 1 < |ts| && !Marked(ts[i]) && w.lower(ts[i]) in {"jeden", "jede", "jedes"}
    ensures forall wd :: 1 <= wd <= 7 && NamesWeekday(w.lower(ts[i + 1]), wd) ==>
      GroupAt(w, ts, i) == Recurrence(2, Rule("WEEKLY", None, Some(wd)), Some(wd))
    ensures forall freq :: NamesUnit(w.lower(ts[i + 1]), freq) && WeekdayOf(w.lower(ts[i + 1])).None? ==>
      GroupAt(w, ts, i) == Recurrence(2, Rule(freq, None, None), None)
  {
    hide TimeAt, DateAt, FreqOf, WeekdayOf, NamesWeekday, NamesUnit;
    var next := w.lower(ts[i + 1]);
    forall wd | 1 <= wd <= 7 && NamesWeekday(next, wd)
      ensures WeekdayOf(next) == Some(wd)
    {
      NamesAreWeekdays(next, wd);
    }
    forall freq | NamesUnit(next, freq)
      ensures FreqOf(next) == Some(freq)
    {
      UnitsAre(next, freq);
    }
  }

  /** "alle", a number and a unit: an interval, at least one. */
  lemma EverySoMany(w: World, ts: seq<string>, i: nat, freq: string)
    requires i + 2 < |ts| && !Marked(ts[i]) && w.lower(ts[i]) in {"alle", "every"}
    requires w.number(w.lower(ts[i + 1])).Some? && NamesUnit(w.lower(ts[i + 2]), freq)
    ensures var n := w.number(w.lower(ts[i + 1])).value;
            GroupAt(w, ts, i) == Recurrence(3, Rule(freq, Some(if n < 1 then 1 else n), None), None)
  {
    hide TimeAt, DateAt, FreqOf, WeekdayOf, NamesUnit;
    UnitsAre(w.lower(ts[i + 2]), freq);
  }

  /** Times: a clock time, "um" and a clock time or an hour, an hour and "uhr". */
  lemma TimesAre(w: World, ts: seq<string>, i: nat)
    requires i < |ts|
    ensures w.clock(ts[i]).Some? ==> TimeAt(w, ts, i) == Some(Time(1, w.clock(ts[i]).value))
    ensures i + 1 < |ts| && w.clock(ts[i]).None? && w.lower(ts[i]) in {"um", "at"} && w.clock(ts[i + 1]).Some? ==>
      TimeAt(w, ts, i) == Some(Time(2, w.clock(ts[i + 1]).value))
    ensures i + 1 < |ts| && w.clock(ts[i]).None? && w.lower(ts[i]) in {"um", "at"} && w.clock(ts[i + 1]).None?
            && w.hour(ts[i + 1]).Some? ==>
      TimeAt(w, ts, i) == Some(Time(2, w.hour(ts[i + 1]).value))
    ensures i + 1 < |ts| && w.clock(ts[i]).None? && w.lower(ts[i]) !in {"um", "at", ""}
            && w.lower(ts[i])[|w.lower(ts[i])| - 1] != 'h' && w.lower(ts[i + 1]) in {"uhr", "h"} ==>
      TimeAt(w, ts, i) == match w.hour(w.lower(ts[i])) case Some(m) => Some(Time(2, m)) case None => None
    ensures i + 1 < |ts| && w.clock(ts[i]).None? && w.lower(ts[i]) != ""
            && w.lower(ts[i])[|w.lower(ts[i])| - 1] == 'h' && w.lower(ts[i + 1]) in {"uhr", "h"}
            && w.hour(w.lower(ts[i])[..|w.lower(ts[i])| - 1]).Some? ==>
      TimeAt(w, ts, i) == Some(Time(1, w.hour(w.lower(ts[i])[..|w.lower(ts[i])| - 1]).value))
  {
  }

  lemma AppliedFields(w: World, gs: seq<Group>)
    requires gs != []
    ensures var before, g, t := AppliedAll(w, gs[..|gs| - 1]), gs[|gs| - 1], AppliedAll(w, gs);
            && t.priority == (if g.Priority? then Some(g.level) else before.priority)
            && t.project == (if g.Project? then Some(g.name) else before.project)
            && t.rule == (if g.Recurrence? then Some(g.rule) else before.rule)
  {
    hide NextWeekday;
  }

  /** Of several priorities, projects or rules the last one counts. */
  lemma {:induction false} LastOneCounts(w: World, gs: seq<Group>, i: nat)
    requires i < |gs|
    ensures var t := AppliedAll(w, gs);
            && (gs[i].Priority? && (forall j :: i < j < |gs| ==> !gs[j].Priority?) ==> t.priority == Some(gs[i].level))
            && (gs[i].Project? && (forall j :: i < j < |gs| ==> !gs[j].Project?) ==> t.project == Some(gs[i].name))
            && (gs[i].Recurrence? && (forall j :: i < j < |gs| ==> !gs[j].Recurrence?) ==> t.rule == Some(gs[i].rule))
    decreases |gs|
  {
    hide AppliedAll;
    var n := |gs| - 1;
    AppliedFields(w, gs);
    if i < n {
      LastOneCounts(w, gs[..n], i);
      assert forall j :: 0 <= j < n ==> gs[..n][j] == gs[j];
    }
  }

  /** And none is there that was not written. */
  lemma {:induction false} NothingInvented(w: World, gs: seq<Group>)
    ensures var t := AppliedAll(w, gs);
            && (t.priority.Some? ==> Priority(t.priority.value) in gs)
            && (t.project.Some? ==> Project(t.project.value) in gs)
            && (t.rule.Some? ==> exists g :: g in gs && g.Recurrence? && g.rule == t.rule.value)
    decreases |gs|
  {
    if gs == [] {
      assert AppliedAll(w, gs) == EMPTY;
    } else {
      hide AppliedAll;
      AppliedFields(w, gs);
      NothingInvented(w, gs[..|gs| - 1]);
      assert forall g :: g in gs <==> g in gs[..|gs| - 1] || g == gs[|gs| - 1];
    }
  }

  predicate TakesThree(w: World, ts: seq<string>, i: nat)
    requires i < |ts|
  {
    GroupAt(w, ts, i).Date? && GroupAt(w, ts, i).tokens == 3
  }

  lemma InIsNothingElse()
    ensures TrimEndOf("in", 's') == "in" && WeekdayOf("in") == None && PriorityOf("in") == None
  {
  }

  /** A date takes three tokens exactly for "in", a number and one more, whatever that is. */
  lemma DateOfThreeIff(w: World, ts: seq<string>, i: nat)
    requires i < |ts|
    ensures TakesThree(w, ts, i) <==>
      && !Marked(ts[i]) && w.lower(ts[i]) == "in" && TimeAt(w, ts, i).None?
      && i + 2 < |ts| && w.number(ts[i + 1]).Some?
    ensures TakesThree(w, ts, i) ==> GroupAt(w, ts, i) == Date(3, w.today + w.number(ts[i + 1]).value)
  {
    InIsNothingElse();
  }

  /** The third word has no say: any other one gives the same date. */
  lemma ThirdTokenHasNoSay(w: World, ts: seq<string>, i: nat, other: string)
    requires i < |ts| && TakesThree(w, ts, i)
    ensures i + 2 < |ts| && GroupAt(w, ts[i + 2 := other], i) == GroupAt(w, ts, i)
  {
    DateOfThreeIff(w, ts, i);
    var us := ts[i + 2 := other];
    assert us[i] == ts[i] && us[i + 1] == ts[i + 1];
    DateOfThreeIff(w, us, i);
  }

  /** In a line read as groups, "in", a number and whatever word comes third are one date, and
      so that word is not in the title: exactly where no time is read first. */
  lemma SwallowsAWordIff(w: World, ts: seq<string>, gs: seq<Group>, k: nat)
    requires Grouped(w, ts, gs) && k < |gs| && Widths(gs[..k]) + 2 < |ts|
    ensures var i := Widths(gs[..k]);
            var swallowed := gs[k].Date? && InGroup(gs, k, i + 2);
            && (swallowed <==>
                !Marked(ts[i]) && w.lower(ts[i]) == "in" && TimeAt(w, ts, i).None? && w.number(ts[i + 1]).Some?)
            && (swallowed ==> i + 2 !in TitlePlaces(gs))
  {
    hide GroupAt, TimeAt, Widths;
    var i := Widths(gs[..k]);
    OneMore(gs, k);
    DateOfThreeIff(w, ts, i);
    DatesAreShort(w, ts, i);
    if InGroup(gs, k, i + 2) {
      InTitleIff(gs, k, i + 2);
    }
  }

  lemma DatesAreShort(w: World, ts: seq<string>, i: nat)
    requires i < |ts|
    ensures GroupAt(w, ts, i).Date? ==> GroupAt(w, ts, i).tokens <= 3
  {
    hide RecurrenceAt, TimeAt;
  }

  /** "in" and a number too large leave the calendar, so the parser stops the program. */
  lemma LargeNumberLeavesCalendar(w: World, n: string, k: int)
    requires w.lower("in") == "in" && w.number(n) == Some(k) && w.today + k > w.lastDay
    requires TimeAt(w, ["in", n], 0).None?
    ensures Reading(w, ["in", n], 0) == [Date(2, w.today + k)] && !InCalendar(w, w.today + k)
  {
    hide TimeAt;
    InIsNothingElse();
    var ts := ["in", n];
    assert GroupAt(w, ts, 0) == Date(2, w.today + k);
    ReadingEnd(w, ts);
  }

  /** Nothing that starts with a slash is a number, a time or a date, and lower-casing keeps
      the slash. */
  ghost predicate SlashIsNotParsed(w: World) {
    forall s :: s != "" && s[0] == '/' ==>
      && w.lower(s) != "" && w.lower(s)[0] == '/'
      && w.clock(s).None? && w.hour(s).None? && w.german(s).None? && w.iso(s).None?
  }

  lemma {:induction false} TrimKeepsSlash(s: string, c: char)
    requires s != "" && s[0] == '/' && c != '/'
    ensures TrimEndOf(s, c) != "" && TrimEndOf(s, c)[0] == '/'
    decreases |s|
  {
    if |s| > 1 && s[|s| - 1] == c {
      TrimKeepsSlash(s[..|s| - 1], c);
    }
  }

  /** No table has a word that starts with a slash. */
  lemma SlashIsNoWord(l: string)
    requires l != "" && l[0] == '/'
    ensures WeekdayOf(l).None? && PriorityOf(l).None?
    ensures l !in {"alle", "every", "jeden", "jede", "jedes", "t\U{e4}glich", "taeglich", "daily"}
    ensures l !in {"w\U{f6}chentlich", "woechentlich", "weekly", "monatlich", "monthly"}
    ensures l !in {"j\U{e4}hrlich", "jaehrlich", "yearly", "annually", "um", "at", "uhr", "h", "in", "am", "on"}
    ensures l !in {"heute", "today", "morgen", "tomorrow", "\U{fc}bermorgen", "uebermorgen", "gestern", "yesterday"}
    ensures l !in {"n\U{e4}chste", "naechste", "next"}
  {
    TrimKeepsSlash(l, 's');
  }

  /** The documented section token is a word of the title, in every line. */
  lemma SectionIsAWord(w: World, ts: seq<string>, i: nat)
    requires SlashIsNotParsed(w) && i < |ts| && ts[i] != "" && ts[i][0] == '/'
    ensures GroupAt(w, ts, i) == Word(ts[i])
  {
    hide WeekdayOf, PriorityOf, FreqOf;
    var l := w.lower(ts[i]);
    SlashIsNoWord(l);
    assert RecurrenceAt(w, ts, i) == None;
    if l[|l| - 1] == 'h' && |l| > 1 {
      assert l[..|l| - 1][0] == '/';
    }
    assert TimeAt(w, ts, i) == None by {
      hide RecurrenceAt, DateAt;
    }
    assert DateAt(w, ts, i) == None;
  }
}
