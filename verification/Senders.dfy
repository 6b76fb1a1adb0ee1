/** Who writes the most: the mails of a folder, newest first, grouped by sender address. */
module Senders {
  import opened Text

  datatype Row = Row(uid: int, from: string, date: Option<string>, read: bool)

  datatype Sender = Sender(address: string, name: string, count: nat, unread: nat,
                           newest: Option<string>, uids: seq<int>, abo: Option<bool>, aboUid: Option<int>)

  // ---------------------------------------------------------------- addresses

  /** The last position of `c`, if any. */
  function RFind(s: string, c: char): (i: Option<nat>)
    ensures i.Some? ==> i.value < |s| && s[i.value] == c
    ensures forall j :: 0 <= j < |s| && (i.Some? ==> j > i.value) ==> s[j] != c
  {
    if s == "" then None
    else if s[|s| - 1] == c then Some(|s| - 1)
    else RFind(s[..|s| - 1], c)
  }

  function Unquote(s: string): string {
    if s != "" && s[0] == '"' then Unquote(s[1..])
    else if s != "" && s[|s| - 1] == '"' then Unquote(s[..|s| - 1])
    else s
  }

  /** `adresse_zerlegen`: display name and address, for a given lower-casing. */
  function Parts(raw: string, lower: string -> string): (string, string) {
    var from := Trim(raw);
    match (RFind(from, '<'), RFind(from, '>'))
    case (Some(a), Some(b)) =>
      if a < b then
        var address := lower(Trim(from[a + 1..b]));
        var name := Trim(Unquote(Trim(from[..a])));
        (if name == "" then address else name, address)
      else (from, lower(from))
    case _ => (from, lower(from))
  }

  function Address(r: Row, lower: string -> string): string {
    Parts(r.from, lower).1
  }

  /** "Name <address>" reads back as its parts. */
  lemma PrintedAddressIsRead(name: string, address: string, lower: string -> string)
    requires Trimmed(name) && Trimmed(address) && name != "" && address != ""
    requires '<' !in address && '>' !in address
    requires name[0] != '"' && name[|name| - 1] != '"'
    ensures Parts(name + " <" + address + ">", lower) == (name, lower(address))
  {
    hide Trim, RFind;
    var s := name + " <" + address + ">";
    assert s[0] == name[0] && s[|s| - 1] == '>';
    TrimTrimmed(s);
    var a := |name| + 1;
    assert s[a] == '<' && s[|s| - 1] == '>';
    RFindAt(s, '<', a);
    RFindAt(s, '>', |s| - 1);
    assert s[a + 1..|s| - 1] == address;
    TrimTrimmed(address);
    assert s[..a] == name + " ";
    TrimSpace(name);
    TrimTrimmed(name);
  }

  /** A name in quotes reads back without them. */
  lemma QuotedAddressIsRead(name: string, address: string, lower: string -> string)
    requires Trimmed(name) && Trimmed(address) && name != "" && address != ""
    requires '<' !in address && '>' !in address
    requires name[0] != '"' && name[|name| - 1] != '"'
    ensures Parts("\"" + name + "\" <" + address + ">", lower) == (name, lower(address))
  {
    hide Trim, RFind, Unquote;
    var quoted := "\"" + name + "\"";
    var s := "\"" + name + "\" <" + address + ">";
    assert s == quoted + " <" + address + ">";
    assert s[0] == '"' && s[|s| - 1] == '>';
    TrimTrimmed(s);
    var a := |quoted| + 1;
    assert s[a] == '<';
    RFindAt(s, '<', a);
    RFindAt(s, '>', |s| - 1);
    assert s[a + 1..|s| - 1] == address && s[..a] == quoted + " ";
    TrimTrimmed(address);
    assert quoted[|quoted| - 1] == '"';
    TrimSpace(quoted);
    UnquoteQuoted(name);
    TrimTrimmed(name);
  }

  lemma UnquoteQuoted(name: string)
    requires name != "" && name[0] != '"' && name[|name| - 1] != '"'
    ensures Unquote("\"" + name + "\"") == name
  {
    var q := "\"" + name + "\"";
    assert q[1..] == name + "\"" && (name + "\"")[..|name|] == name;
    assert Unquote(name) == name;
    assert Unquote(name + "\"") == name;
  }

  /** An address alone, with or without brackets, is its own name. */
  lemma BareAddressIsRead(address: string, lower: string -> string)
    requires Trimmed(address) && address != "" && '<' !in address && '>' !in address
    ensures Parts(address, lower) == (address, lower(address))
    ensures Parts("<" + address + ">", lower) == (lower(address), lower(address))
  {
    hide Trim, RFind, Unquote;
    TrimTrimmed(address);
    assert RFind(address, '<').None?;
    var s := "<" + address + ">";
    assert s[0] == '<' && s[|s| - 1] == '>';
    TrimTrimmed(s);
    RFindAt(s, '<', 0);
    RFindAt(s, '>', |s| - 1);
    assert s[0 + 1..|s| - 1] == address && s[..0] == "";
    TrimTrimmed("");
    assert Unquote("") == "" by {
      NothingQuoted();
    }
  }

  lemma NothingQuoted()
    ensures Unquote("") == ""
  {
  }

  lemma RFindAt(s: string, c: char, i: nat)
    requires i < |s| && s[i] == c && forall j :: i < j < |s| ==> s[j] != c
    ensures RFind(s, c) == Some(i)
  {
  }

  lemma TrimSpace(t: string)
    requires Trimmed(t) && t != ""
    ensures Trim(t + " ") == t
  {
    assert TrimStart(t + " ") == t + " ";
    assert (t + " ")[..|t|] == t;
  }

  // ----------------------------------------------------------------- grouping

  predicate Named(r: Row) {
    Trim(r.from) != ""
  }

  /** The rows of one address, in order. */
  function Of(rows: seq<Row>, lower: string -> string, k: string): (r: seq<Row>)
    ensures forall x :: x in r <==> x in rows && Named(x) && Address(x, lower) == k
  {
    if rows == [] then []
    else
      var last := rows[|rows| - 1];
      Of(rows[..|rows| - 1], lower, k) + if Named(last) && Address(last, lower) == k then [last] else []
  }

  function Uids(rows: seq<Row>): (r: seq<int>)
    ensures |r| == |rows| && forall i :: 0 <= i < |rows| ==> r[i] == rows[i].uid
  {
    if rows == [] then [] else Uids(rows[..|rows| - 1]) + [rows[|rows| - 1].uid]
  }

  function Unread(rows: seq<Row>): nat {
    if rows == [] then 0 else Unread(rows[..|rows| - 1]) + if rows[|rows| - 1].read then 0 else 1
  }

  function EntryFrom(own: seq<Row>, lower: string -> string, k: string): Sender
    requires own != []
  {
    Sender(k, Parts(own[0].from, lower).0, |own|, Unread(own), own[0].date, Uids(own), None, None)
  }

  /** One sender's entry: name and date are the newest mail's. */
  function Entry(rows: seq<Row>, lower: string -> string, k: string): Sender
    requires Of(rows, lower, k) != []
  {
    EntryFrom(Of(rows, lower, k), lower, k)
  }

  /** The accumulators after these rows. */
  ghost predicate Collected(senders: map<string, Sender>, rows: seq<Row>, lower: string -> string) {
    && (forall k :: k in senders <==> Of(rows, lower, k) != [])
    && forall k :: k in senders ==> senders[k] == Entry(rows, lower, k)
  }

  method Collect(rows: seq<Row>, lower: string -> string) returns (senders: map<string, Sender>)
    ensures forall k :: k in senders <==> Of(rows, lower, k) != []
    ensures forall k :: k in senders ==> senders[k] == Entry(rows, lower, k)
  {
    hide Of, Parts, Entry, Named, Address, Collected;
    senders := map[];
    NothingCollected(lower);
    for i := 0 to |rows|
      invariant Collected(senders, rows[..i], lower)
    {
      var r := rows[i];
      assert rows[..i + 1] == rows[..i] + [r];
      if !Named(r) {
        CollectedSkips(senders, rows[..i], r, lower);
        continue;
      }
      var (name, address) := Parts(r.from, lower);
      AddressIs(r, lower);
      CollectedGrows(senders, rows[..i], r, lower);
      var e := if address in senders then senders[address] else Sender(address, name, 0, 0, r.date, [], None, None);
      e := e.(count := e.count + 1, unread := if r.read then e.unread else e.unread + 1, uids := e.uids + [r.uid]);
      senders := senders[address := e];
    }
    assert rows[..|rows|] == rows;
    CollectedMeans(senders, rows, lower);
  }

  lemma NothingCollected(lower: string -> string)
    ensures Collected(map[], [], lower)
  {
    OfNone(lower);
  }

  lemma CollectedMeans(senders: map<string, Sender>, rows: seq<Row>, lower: string -> string)
    requires Collected(senders, rows, lower)
    ensures forall k :: k in senders <==> Of(rows, lower, k) != []
    ensures forall k :: k in senders ==> senders[k] == Entry(rows, lower, k)
  {
  }

  lemma CollectedSkips(senders: map<string, Sender>, rows: seq<Row>, r: Row, lower: string -> string)
    requires Collected(senders, rows, lower) && !Named(r)
    ensures Collected(senders, rows + [r], lower)
  {
    hide Of, Named, Address, Entry;
    forall k
      ensures Of(rows + [r], lower, k) == Of(rows, lower, k)
      ensures k in senders ==> Entry(rows + [r], lower, k) == Entry(rows, lower, k)
    {
      OfSnoc(rows, r, lower, k);
      if k in senders {
        SameEntry(rows, rows + [r], lower, k);
      }
    }
  }

  lemma CollectedGrows(senders: map<string, Sender>, rows: seq<Row>, r: Row, lower: string -> string)
    requires Collected(senders, rows, lower) && Named(r)
    ensures var k := Address(r, lower);
            var e := if k in senders then senders[k]
                     else Sender(k, Parts(r.from, lower).0, 0, 0, r.date, [], None, None);
            Collected(senders[k := e.(count := e.count + 1, unread := if r.read then e.unread else e.unread + 1,
                                      uids := e.uids + [r.uid])], rows + [r], lower)
  {
    hide Of, Parts, Entry, Named, Address;
    var own := Address(r, lower);
    EntryGrows(rows, r, lower);
    forall k | k != own
      ensures Of(rows + [r], lower, k) == Of(rows, lower, k)
      ensures k in senders ==> Entry(rows + [r], lower, k) == Entry(rows, lower, k)
    {
      OfSnoc(rows, r, lower, k);
      if k in senders {
        SameEntry(rows, rows + [r], lower, k);
      }
    }
  }

  lemma AddressIs(r: Row, lower: string -> string)
    ensures Address(r, lower) == Parts(r.from, lower).1
  {
    hide Parts;
  }

  lemma OfNone(lower: string -> string)
    ensures forall k :: Of([], lower, k) == []
  {
  }

  lemma OfSnoc(rows: seq<Row>, r: Row, lower: string -> string, k: string)
    ensures Of(rows + [r], lower, k)
         == if Named(r) && Address(r, lower) == k then Of(rows, lower, k) + [r] else Of(rows, lower, k)
  {
    hide Named, Address;
    assert (rows + [r])[..|rows|] == rows;
  }

  lemma SameEntry(a: seq<Row>, b: seq<Row>, lower: string -> string, k: string)
    requires Of(a, lower, k) == Of(b, lower, k) != []
    ensures Entry(a, lower, k) == Entry(b, lower, k)
  {
  }

  lemma EntryGrows(rows: seq<Row>, r: Row, lower: string -> string)
    requires Named(r)
    ensures var k := Address(r, lower);
            && Of(rows + [r], lower, k) != []
            && var e := if Of(rows, lower, k) != [] then Entry(rows, lower, k)
                        else Sender(k, Parts(r.from, lower).0, 0, 0, r.date, [], None, None);
            Entry(rows + [r], lower, k)
            == e.(count := e.count + 1, unread := if r.read then e.unread else e.unread + 1, uids := e.uids + [r.uid])
  {
    hide Of, Named, Parts, EntryFrom;
    var k := Address(r, lower);
    OfSnoc(rows, r, lower, k);
    EntryFromGrows(Of(rows, lower, k), r, lower, k);
  }

  lemma EntryFromGrows(own: seq<Row>, r: Row, lower: string -> string, k: string)
    ensures var e := if own != [] then EntryFrom(own, lower, k)
                     else Sender(k, Parts(r.from, lower).0, 0, 0, r.date, [], None, None);
            EntryFrom(own + [r], lower, k)
            == e.(count := e.count + 1, unread := if r.read then e.unread else e.unread + 1, uids := e.uids + [r.uid])
  {
    hide Parts, Unread;
    UnreadSnoc(own, r);
    UnreadNone();
    assert (own + [r])[..|own|] == own;
    assert Uids(own + [r]) == Uids(own) + [r.uid];
  }

  lemma UnreadNone()
    ensures Unread([]) == 0
  {
  }

  lemma UnreadSnoc(rows: seq<Row>, r: Row)
    ensures Unread(rows + [r]) == Unread(rows) + if r.read then 0 else 1
  {
    assert (rows + [r])[..|rows|] == rows;
  }

  // ------------------------------------------------------------------ sorting

  /** The order of strings by code points. */
  predicate LexLe(a: string, b: string) {
    a == "" || (b != "" && (a[0] < b[0] || (a[0] == b[0] && LexLe(a[1..], b[1..]))))
  }

  /** None is before every date. */
  predicate DateLe(a: Option<string>, b: Option<string>) {
    a.None? || (b.Some? && LexLe(a.value, b.value))
  }

  /** More mails first, then the newer. */
  predicate Before(a: Sender, b: Sender) {
    a.count > b.count || (a.count == b.count && DateLe(b.newest, a.newest))
  }

  lemma {:induction false} LexTotal(a: string, b: string)
    ensures LexLe(a, b) || LexLe(b, a)
  {
    if a != "" && b != "" && a[0] == b[0] {
      LexTotal(a[1..], b[1..]);
    }
  }

  lemma {:induction false} LexTransitive(a: string, b: string, c: string)
    requires LexLe(a, b) && LexLe(b, c)
    ensures LexLe(a, c)
  {
    if a != "" && a[0] == b[0] == c[0] {
      LexTransitive(a[1..], b[1..], c[1..]);
    }
  }

  lemma BeforeTotal(a: Sender, b: Sender)
    ensures Before(a, b) || Before(b, a)
  {
    if a.newest.Some? && b.newest.Some? {
      LexTotal(a.newest.value, b.newest.value);
    }
  }

  lemma BeforeTransitive(a: Sender, b: Sender, c: Sender)
    requires Before(a, b) && Before(b, c)
    ensures Before(a, c)
  {
    if a.newest.Some? && b.newest.Some? && c.newest.Some? && a.count == b.count == c.count {
      LexTransitive(c.newest.value, b.newest.value, a.newest.value);
    }
  }

  predicate Ordered(l: seq<Sender>) {
    forall i, j :: 0 <= i < j < |l| ==> Before(l[i], l[j])
  }

  function Insert(s: Sender, l: seq<Sender>): (r: seq<Sender>)
    ensures |r| == |l| + 1 && forall x :: x in r <==> x == s || x in l
  {
    if l == [] || Before(s, l[0]) then [s] + l else [l[0]] + Insert(s, l[1..])
  }

  lemma {:induction false} InsertOrdered(s: Sender, l: seq<Sender>)
    requires Ordered(l)
    ensures Ordered(Insert(s, l))
  {
    hide Before;
    if l != [] {
      if Before(s, l[0]) {
        forall j | 1 <= j < |l|
          ensures Before(s, l[j])
        {
          BeforeTransitive(s, l[0], l[j]);
        }
      } else {
        BeforeTotal(s, l[0]);
        InsertOrdered(s, l[1..]);
        var r := Insert(s, l[1..]);
        forall j | 0 <= j < |r|
          ensures Before(l[0], r[j])
        {
          assert r[j] in r;
        }
      }
    }
  }

  predicate DistinctAddresses(l: seq<Sender>) {
    forall i, j :: 0 <= i < j < |l| ==> l[i].address != l[j].address
  }

  lemma {:induction false} InsertDistinct(s: Sender, l: seq<Sender>)
    requires DistinctAddresses(l) && forall x :: x in l ==> x.address != s.address
    ensures DistinctAddresses(Insert(s, l))
  {
    hide Before;
    if l != [] && !Before(s, l[0]) {
      InsertDistinct(s, l[1..]);
      var r := Insert(s, l[1..]);
      forall j | 0 <= j < |r|
        ensures r[j].address != l[0].address
      {
        assert r[j] in r;
      }
    }
  }

  /** Nobody stands behind one with fewer mails, or with as many and an older newest one. */
  predicate MostMailsFirst(l: seq<Sender>) {
    forall i, j :: 0 <= i < j < |l| ==>
      l[i].count >= l[j].count && (l[i].count == l[j].count ==> DateLe(l[j].newest, l[i].newest))
  }

  lemma OrderedIsMostFirst(l: seq<Sender>)
    requires Ordered(l)
    ensures MostMailsFirst(l)
  {
    hide DateLe;
    forall i, j | 0 <= i < j < |l|
      ensures Before(l[i], l[j])
    {
    }
  }

  lemma SameFirst(a: string, b: string, i: nat)
    requires i <= |a| && i <= |b| && a[..i] == b[..i]
    ensures i > 0 ==> a[0] == b[0]
  {
    assert i > 0 ==> a[..i][0] == b[..i][0];
  }

  /** Dates compare at the first character that differs. */
  lemma {:induction false} LexLeIff(a: string, b: string)
    ensures LexLe(a, b) <==>
      a <= b || exists i :: 0 <= i < |a| && i < |b| && a[..i] == b[..i] && a[i] < b[i]
  {
    if a != "" && b != "" {
      if a[0] == b[0] {
        LexLeIff(a[1..], b[1..]);
        assert a <= b <==> a[1..] <= b[1..];
        if i :| 0 <= i < |a| && i < |b| && a[..i] == b[..i] && a[i] < b[i] {
          assert i > 0 && a[1..][..i - 1] == a[..i][1..] == b[..i][1..] == b[1..][..i - 1];
          assert a[1..][i - 1] < b[1..][i - 1];
        }
        if i :| 0 <= i < |a[1..]| && i < |b[1..]| && a[1..][..i] == b[1..][..i] && a[1..][i] < b[1..][i] {
          assert a[..i + 1] == [a[0]] + a[1..][..i] == [b[0]] + b[1..][..i] == b[..i + 1];
          assert a[i + 1] < b[i + 1];
        }
      } else {
        assert a[..0] == b[..0];
        forall i | 0 <= i < |a| && i < |b| && a[..i] == b[..i]
          ensures i == 0
        {
          SameFirst(a, b, i);
        }
      }
    }
  }

  /** `l` is a right answer: ordered, one entry per address, each the entry of its rows. */
  ghost predicate Grouping(l: seq<Sender>, rows: seq<Row>, lower: string -> string) {
    && MostMailsFirst(l)
    && DistinctAddresses(l)
    && (forall s :: s in l ==> Of(rows, lower, s.address) != [] && s == Entry(rows, lower, s.address))
    && forall r :: r in rows && Named(r) ==> exists s :: s in l && s.address == Address(r, lower)
  }

  /** `gruppieren`. */
  method Grouped(rows: seq<Row>, lower: string -> string) returns (l: seq<Sender>)
    ensures Grouping(l, rows, lower)
  {
    hide Of, Entry, Named, Address, Ordered, DistinctAddresses, Before, MostMailsFirst;
    var senders := Collect(rows, lower);
    l := [];
    NoneYet();
    var left := senders.Keys;
    while left != {}
      invariant left <= senders.Keys
      invariant Ordered(l) && DistinctAddresses(l)
      invariant forall s :: s in l ==> s.address in senders && s.address !in left && s == senders[s.address]
      invariant forall k :: k in senders && k !in left ==> senders[k] in l
      decreases |left|
    {
      var k :| k in left;
      EntryAddress(rows, lower, k);
      InsertOrdered(senders[k], l);
      InsertDistinct(senders[k], l);
      l := Insert(senders[k], l);
      left := left - {k};
    }
    OrderedIsMostFirst(l);
    forall r | r in rows && Named(r)
      ensures exists s :: s in l && s.address == Address(r, lower)
    {
      assert r in Of(rows, lower, Address(r, lower));
      EntryAddress(rows, lower, Address(r, lower));
      assert senders[Address(r, lower)] in l;
    }
  }

  lemma NoneYet()
    ensures Ordered([]) && DistinctAddresses([])
  {
  }

  lemma EntryAddress(rows: seq<Row>, lower: string -> string, k: string)
    requires Of(rows, lower, k) != []
    ensures Entry(rows, lower, k).address == k
  {
  }

  // ------------------------------------------------------------- one entry

  predicate From(r: Row, lower: string -> string, k: string) {
    Named(r) && Address(r, lower) == k
  }

  /** Where the mails of one address stand. */
  function PlacesOf(rows: seq<Row>, lower: string -> string, k: string): seq<nat> {
    hide From;
    if rows == [] then []
    else PlacesOf(rows[..|rows| - 1], lower, k) + if From(rows[|rows| - 1], lower, k) then [|rows| - 1] else []
  }

  /** `p` are the places of the mails of one address, from the first on, and `own` these mails. */
  ghost predicate StandAt(p: seq<nat>, own: seq<Row>, rows: seq<Row>, lower: string -> string, k: string) {
    && |p| == |own|
    && (forall n :: 0 <= n < |p| ==> p[n] < |rows| && rows[p[n]] == own[n])
    && (forall m, n :: 0 <= m < n < |p| ==> p[m] < p[n])
    && forall i: nat :: i in p <==> i < |rows| && From(rows[i], lower, k)
  }

  lemma StandStep(p: seq<nat>, own: seq<Row>, rows: seq<Row>, r: Row, lower: string -> string, k: string)
    requires StandAt(p, own, rows, lower, k)
    ensures if From(r, lower, k) then StandAt(p + [|rows|], own + [r], rows + [r], lower, k)
            else StandAt(p, own, rows + [r], lower, k)
  {
    hide From;
    var all := rows + [r];
    assert all[|rows|] == r && forall i :: 0 <= i < |rows| ==> all[i] == rows[i];
    assert forall i: nat :: i in p + [|rows|] <==> i in p || i == |rows|;
  }

  /** The mails of one address are those at its places, in the order of the folder. */
  lemma {:induction false} OfInOrder(rows: seq<Row>, lower: string -> string, k: string)
    ensures StandAt(PlacesOf(rows, lower, k), Of(rows, lower, k), rows, lower, k)
    decreases |rows|
  {
    hide Named, Address, StandAt, From;
    if rows == [] {
      OfNone(lower);
      NobodyStands(lower, k);
    } else {
      hide Of;
      var front, r := rows[..|rows| - 1], rows[|rows| - 1];
      assert front + [r] == rows;
      OfInOrder(front, lower, k);
      OfSnoc(front, r, lower, k);
      FromIs(r, lower, k);
      StandStep(PlacesOf(front, lower, k), Of(front, lower, k), front, r, lower, k);
      assert PlacesOf(front, lower, k) + [] == PlacesOf(front, lower, k);
    }
  }

  lemma FromIs(r: Row, lower: string -> string, k: string)
    ensures From(r, lower, k) <==> Named(r) && Address(r, lower) == k
  {
  }

  lemma NobodyStands(lower: string -> string, k: string)
    ensures StandAt([], [], [], lower, k)
  {
  }

  /** The places of the unread ones. */
  function UnreadPlaces(rows: seq<Row>): (u: set<nat>)
    ensures forall i: nat :: i in u <==> i < |rows| && !rows[i].read
  {
    set i: nat | i < |rows| && !rows[i].read
  }

  lemma UnreadPlacesSnoc(rows: seq<Row>, r: Row)
    ensures |UnreadPlaces(rows + [r])| == |UnreadPlaces(rows)| + if r.read then 0 else 1
  {
    var u, v := UnreadPlaces(rows), UnreadPlaces(rows + [r]);
    assert |rows| !in u;
    if r.read {
      assert v == u;
    } else {
      assert v == u + {|rows|};
    }
  }

  lemma {:induction false} UnreadCounts(rows: seq<Row>)
    ensures Unread(rows) == |UnreadPlaces(rows)|
    decreases |rows|
  {
    hide Unread, UnreadPlaces;
    if rows == [] {
      UnreadNone();
      assert UnreadPlaces(rows) == {};
    } else {
      var front, r := rows[..|rows| - 1], rows[|rows| - 1];
      assert front + [r] == rows;
      UnreadCounts(front);
      UnreadSnoc(front, r);
      UnreadPlacesSnoc(front, r);
    }
  }

  /** An entry tells of its mails, newest first: their numbers in order, how many there are and
      how many are unread, and the name and date of the newest one. */
  lemma EntryTells(l: seq<Sender>, rows: seq<Row>, lower: string -> string, s: Sender)
    returns (p: seq<nat>, own: seq<Row>)
    requires Grouping(l, rows, lower) && s in l
    ensures StandAt(p, own, rows, lower, s.address)
    ensures 0 < |p| == s.count == |s.uids| && forall n :: 0 <= n < |p| ==> s.uids[n] == rows[p[n]].uid
    ensures s.newest == rows[p[0]].date && s.name == Parts(rows[p[0]].from, lower).0
    ensures s.unread == |UnreadPlaces(own)|
  {
    hide Of, From, Parts, MostMailsFirst, DistinctAddresses, PlacesOf, UnreadPlaces;
    OfInOrder(rows, lower, s.address);
    p, own := PlacesOf(rows, lower, s.address), Of(rows, lower, s.address);
    UnreadCounts(own);
  }

  // ---------------------------------------------------------------- partition

  /** Every row with a sender is in exactly one group. */
  lemma EveryRowInOneGroup(l: seq<Sender>, rows: seq<Row>, lower: string -> string, r: Row)
    requires Grouping(l, rows, lower) && r in rows && Named(r)
    ensures exists i :: 0 <= i < |l| && r in Of(rows, lower, l[i].address) && r.uid in l[i].uids
    ensures forall i, j :: 0 <= i < |l| && 0 <= j < |l| ==>
      (r in Of(rows, lower, l[i].address) && r in Of(rows, lower, l[j].address) ==> i == j)
  {
    hide Named, MostMailsFirst;
    var s :| s in l && s.address == Address(r, lower);
    var i :| 0 <= i < |l| && l[i] == s;
    var own := Of(rows, lower, s.address);
    assert r in own;
    var n :| 0 <= n < |own| && own[n] == r;
    assert s.uids[n] == r.uid;
  }

  function TotalCount(l: seq<Sender>): nat {
    if l == [] then 0 else l[0].count + TotalCount(l[1..])
  }

  function TotalUnread(l: seq<Sender>): nat {
    if l == [] then 0 else l[0].unread + TotalUnread(l[1..])
  }

  function NamedRows(rows: seq<Row>): seq<Row> {
    if rows == [] then []
    else NamedRows(rows[..|rows| - 1]) + if Named(rows[|rows| - 1]) then [rows[|rows| - 1]] else []
  }

  function CountOver(l: seq<Sender>, rows: seq<Row>, lower: string -> string): nat {
    if l == [] then 0 else |Of(rows, lower, l[0].address)| + CountOver(l[1..], rows, lower)
  }

  function UnreadOver(l: seq<Sender>, rows: seq<Row>, lower: string -> string): nat {
    if l == [] then 0 else Unread(Of(rows, lower, l[0].address)) + UnreadOver(l[1..], rows, lower)
  }

  lemma {:induction false} OverSnoc(l: seq<Sender>, rows: seq<Row>, r: Row, lower: string -> string)
    requires DistinctAddresses(l)
    ensures var here := Named(r) && exists s :: s in l && s.address == Address(r, lower);
            && CountOver(l, rows + [r], lower) == CountOver(l, rows, lower) + (if here then 1 else 0)
            && UnreadOver(l, rows + [r], lower) == UnreadOver(l, rows, lower) + (if here && !r.read then 1 else 0)
  {
    hide Named, Address, Of, Unread;
    if l != [] {
      OfSnoc(rows, r, lower, l[0].address);
      OverSnoc(l[1..], rows, r, lower);
      UnreadSnoc(Of(rows, lower, l[0].address), r);
      assert l[0] in l && forall s :: s in l[1..] ==> s in l && s.address != l[0].address;
    }
  }

  lemma {:induction false} OverRows(l: seq<Sender>, rows: seq<Row>, lower: string -> string)
    requires DistinctAddresses(l)
    requires forall r :: r in rows && Named(r) ==> exists s :: s in l && s.address == Address(r, lower)
    ensures CountOver(l, rows, lower) == |NamedRows(rows)| && UnreadOver(l, rows, lower) == Unread(NamedRows(rows))
  {
    hide Named, Address, DistinctAddresses, Unread;
    if rows == [] {
      OverNone(l, lower);
      UnreadNone();
    } else {
      var before, r := rows[..|rows| - 1], rows[|rows| - 1];
      assert before + [r] == rows && r in rows;
      OverRows(l, before, lower);
      OverSnoc(l, before, r, lower);
      assert NamedRows(rows) == if Named(r) then NamedRows(before) + [r] else NamedRows(before);
      UnreadSnoc(NamedRows(before), r);
    }
  }

  lemma {:induction false} OverNone(l: seq<Sender>, lower: string -> string)
    ensures CountOver(l, [], lower) == 0 && UnreadOver(l, [], lower) == 0
  {
    if l != [] {
      OverNone(l[1..], lower);
    }
  }

  lemma {:induction false} TotalsOver(l: seq<Sender>, rows: seq<Row>, lower: string -> string)
    requires forall s :: s in l ==> Of(rows, lower, s.address) != [] && s == Entry(rows, lower, s.address)
    ensures TotalCount(l) == CountOver(l, rows, lower) && TotalUnread(l) == UnreadOver(l, rows, lower)
  {
    hide Of;
    if l != [] {
      assert l[0] in l;
      TotalsOver(l[1..], rows, lower);
    }
  }

  /** The counts and the unread counts add up to the rows with a sender. */
  lemma CountsAddUp(l: seq<Sender>, rows: seq<Row>, lower: string -> string)
    requires Grouping(l, rows, lower)
    ensures TotalCount(l) == |NamedRows(rows)| && TotalUnread(l) == Unread(NamedRows(rows))
  {
    hide Of, Entry, Named, Address, MostMailsFirst, DistinctAddresses;
    TotalsOver(l, rows, lower);
    OverRows(l, rows, lower);
  }

  // -------------------------------------------------------------- unsubscribing

  predicate Says(abo: map<int, Option<bool>>, uid: int, answer: bool) {
    uid in abo && abo[uid] == Some(answer)
  }

  /** `abo_eintragen`: true when a mail offers it (with the first such one), false when every
      mail is known not to, else unknown; nothing else changes. */
  method EnterAbo(list: seq<Sender>, abo: map<int, Option<bool>>) returns (out: seq<Sender>)
    ensures |out| == |list|
    ensures forall i :: 0 <= i < |list| ==> Entered(list[i], out[i], abo)
  {
    out := [];
    for i := 0 to |list|
      invariant |out| == i
      invariant forall n :: 0 <= n < i ==> Entered(list[n], out[n], abo)
    {
      var a := Enter(list[i], abo);
      out := out + [a];
    }
  }

  ghost predicate Entered(s: Sender, r: Sender, abo: map<int, Option<bool>>) {
    && r == s.(abo := r.abo, aboUid := r.aboUid)
    && (r.abo == Some(true) <==> exists u :: u in s.uids && u in abo && abo[u] == Some(true))
    && (r.abo == Some(true) <==> r.aboUid.Some?)
    && (r.aboUid.Some? ==> exists k ::
          && 0 <= k < |s.uids| && s.uids[k] == r.aboUid.value && s.uids[k] in abo && abo[s.uids[k]] == Some(true)
          && forall j :: 0 <= j < k ==> !(s.uids[j] in abo && abo[s.uids[j]] == Some(true)))
    && (r.abo == Some(false) <==> forall u :: u in s.uids ==> u in abo && abo[u] == Some(false))
  }

  method Enter(s: Sender, abo: map<int, Option<bool>>) returns (r: Sender)
    ensures Entered(s, r, abo)
  {
    var first, all := None, true;
    for k := 0 to |s.uids|
      invariant first.None? ==> forall j :: 0 <= j < k ==> !Says(abo, s.uids[j], true)
      invariant first.Some? ==> exists n ::
        && 0 <= n < k && s.uids[n] == first.value && Says(abo, s.uids[n], true)
        && forall j :: 0 <= j < n ==> !Says(abo, s.uids[j], true)
      invariant all <==> forall j :: 0 <= j < k ==> Says(abo, s.uids[j], false)
    {
      if first.None? && Says(abo, s.uids[k], true) {
        first := Some(s.uids[k]);
      }
      all := all && Says(abo, s.uids[k], false);
    }
    r := s.(aboUid := first, abo := if first.Some? then Some(true) else if all then Some(false) else None);
  }
}
