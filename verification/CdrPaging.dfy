/** Reading call records page by page (`query_cdrs` of `sbc-storage/src/cdr.rs` and the
    export loop over it): keyset cursors, prefix ranges and the retention purge. */
module CdrPaging {
  import opened Prelude

  // ------------------------------------------------------------------
  // Prefix ranges
  // ------------------------------------------------------------------

  /** Lexicographic order by code point, the store's text order. */
  predicate Less(a: string, b: string) {
    if b == "" then false
    else if a == "" then true
    else a[0] < b[0] || (a[0] == b[0] && Less(a[1..], b[1..]))
  }

  /** The character one above, when that is a character (`char::from_u32`). */
  function NextChar(c: char): Option<char> {
    var n := c as int + 1;
    if n < 0xD800 || 0xE000 <= n < 0x11_0000 then Some(n as char) else None
  }

  /** The exclusive upper bound of a prefix range. */
  function PrefixUpper(p: string): Option<string> {
    if p == "" then None
    else
      var next := NextChar(p[|p| - 1]);
      if next.None? then None else Some(p[..|p| - 1] + [next.value])
  }

  /** The range test the query makes for a prefix. */
  predicate InRange(p: string, s: string) {
    !Less(s, p) && (PrefixUpper(p).Some? ==> Less(s, PrefixUpper(p).value))
  }

  lemma {:induction false} LessPrefix(p: string, s: string)
    requires p <= s
    ensures !Less(s, p)
  {
    if p != "" { LessPrefix(p[1..], s[1..]); }
  }

  lemma {:induction false} UpperTail(p: string)
    requires |p| > 1
    ensures PrefixUpper(p).Some? <==> PrefixUpper(p[1..]).Some?
    ensures PrefixUpper(p).Some? ==>
              && PrefixUpper(p).value != "" && PrefixUpper(p).value[0] == p[0]
              && PrefixUpper(p).value[1..] == PrefixUpper(p[1..]).value
  {
    assert p[1..][|p[1..]| - 1] == p[|p| - 1];
    if PrefixUpper(p).Some? {
      var hi := PrefixUpper(p).value;
      assert hi[0] == p[0] && hi[1..] == p[..|p| - 1][1..] + [hi[|hi| - 1]];
      assert p[..|p| - 1][1..] == p[1..][..|p[1..]| - 1];
    }
  }

  lemma PrefixTail(p: string, s: string)
    requires p != "" && s != "" && s[0] == p[0]
    ensures p <= s <==> p[1..] <= s[1..]
  {
    assert p == [p[0]] + p[1..] && s == [s[0]] + s[1..];
  }

  lemma OneCharRange(p: string, s: string)
    requires |p| == 1 && PrefixUpper(p).Some?
    ensures InRange(p, s) <==> s != "" && s[0] == p[0]
  {
    assert p[..0] == "";
    var hi := PrefixUpper(p).value;
    assert hi == [NextChar(p[0]).value] && hi[1..] == "" && p[1..] == "";
    assert hi[0] as int == p[0] as int + 1;
    if s != "" {
      assert Less(s, p) <==> s[0] < p[0];
      assert Less(s, hi) <==> s[0] < hi[0];
      assert s[0] < hi[0] <==> s[0] as int <= p[0] as int;
      assert s[0] as int == p[0] as int ==> s[0] == p[0];
    }
  }

  /** When the upper bound exists, the range holds exactly the texts with the prefix. */
  lemma {:induction false} RangeIsPrefix(p: string, s: string)
    requires PrefixUpper(p).Some?
    ensures InRange(p, s) <==> p <= s
  {
    if |p| == 1 {
      OneCharRange(p, s);
    } else {
      UpperTail(p);
      if s != "" && s[0] == p[0] {
        RangeIsPrefix(p[1..], s[1..]);
        PrefixTail(p, s);
      }
    }
  }

  const TOP_CHAR: char := '\U{10FFFF}'

  /** A text above every text with prefix `p`, when some character of `p` is not the top one. */
  lemma {:induction false} AboveExists(p: string) returns (s: string)
    requires exists i :: 0 <= i < |p| && p[i] != TOP_CHAR
    ensures s != "" && !Less(s, p) && !(p <= s)
  {
    if p[0] != TOP_CHAR {
      var n := p[0] as int + 1;
      s := if n == 0xD800 then ['\U{E000}'] else [n as char];
      assert s[0] > p[0];
    } else {
      var t := AboveExists(p[1..]);
      s := [p[0]] + t;
      assert s[1..] == t;
      PrefixTail(p, s);
    }
  }

  lemma {:induction false} TopOnly(p: string, s: string)
    requires (forall i :: 0 <= i < |p| ==> p[i] == TOP_CHAR) && !Less(s, p)
    ensures p <= s
  {
    if p != "" {
      assert s != "" && s[0] == p[0];
      TopOnly(p[1..], s[1..]);
      assert p == [p[0]] + p[1..] && s == [s[0]] + s[1..];
    }
  }

  /** Exactly which prefixes are filtered exactly: those with an upper bound, and those
      of top characters only, which nothing can exceed. */
  lemma PrefixFilterExactIff(p: string)
    requires p != ""
    ensures (forall s: string :: InRange(p, s) <==> p <= s) <==>
              PrefixUpper(p).Some? || forall i :: 0 <= i < |p| ==> p[i] == TOP_CHAR
  {
    if PrefixUpper(p).Some? {
      forall s: string ensures InRange(p, s) <==> p <= s { RangeIsPrefix(p, s); }
    } else if forall i :: 0 <= i < |p| ==> p[i] == TOP_CHAR {
      forall s: string ensures InRange(p, s) <==> p <= s {
        if p <= s { LessPrefix(p, s); } else if InRange(p, s) { TopOnly(p, s); }
      }
    } else {
      var s := AboveExists(p);
      assert InRange(p, s) && !(p <= s);
    }
  }

  // ------------------------------------------------------------------
  // Rows and filters
  // ------------------------------------------------------------------

  datatype Row = Row(rowid: int, startedAt: int, direction: string, caller: string, callee: string,
                     trunk: Option<string>, uuid: string, callId: string, sipCode: Option<int>,
                     answeredAt: Option<int>)

  datatype Filter = Filter(from: Option<int>, until: Option<int>, direction: Option<string>, trunk: Option<string>,
                           uuid: Option<string>, callId: Option<string>, callerPrefix: Option<string>,
                           calleePrefix: Option<string>, sipCode: Option<int>, answered: Option<bool>)

  /** A keyset cursor: the (started_at, rowid) of the last row seen. */
  datatype Cursor = Cursor(startedAt: int, rowid: int)

  predicate PrefixOk(p: Option<string>, s: string) { p.Some? && p.value != "" ==> InRange(p.value, s) }

  predicate Matches(f: Filter, r: Row) {
    && (f.from.Some? ==> r.startedAt >= f.from.value)
    && (f.until.Some? ==> r.startedAt < f.until.value)
    && (f.direction.Some? ==> r.direction == f.direction.value)
    && (f.trunk.Some? ==> r.trunk == f.trunk)
    && (f.uuid.Some? ==> r.uuid != "" && r.uuid == f.uuid.value)
    && (f.callId.Some? ==> r.callId == f.callId.value)
    && PrefixOk(f.callerPrefix, r.caller) && PrefixOk(f.calleePrefix, r.callee)
    && (f.sipCode.Some? ==> r.sipCode == f.sipCode)
    && (f.answered.Some? ==> (f.answered.value <==> r.answeredAt.Some?))
  }

  /** Newest first: `started_at DESC, rowid DESC`. */
  predicate Above(a: Row, b: Row) { a.startedAt > b.startedAt || (a.startedAt == b.startedAt && a.rowid > b.rowid) }

  predicate Below(r: Row, c: Cursor) { r.startedAt < c.startedAt || (r.startedAt == c.startedAt && r.rowid < c.rowid) }

  ghost predicate UniqueIds(s: set<Row>) { forall a, b :: a in s && b in s && a.rowid == b.rowid ==> a == b }

  ghost function Selected(table: set<Row>, f: Filter, before: Option<Cursor>): (sel: set<Row>)
    ensures UniqueIds(table) ==> UniqueIds(sel)
  {
    set r | r in table && Matches(f, r) && (before.Some? ==> Below(r, before.value))
  }

  // ------------------------------------------------------------------
  // The ordered listing
  // ------------------------------------------------------------------

  ghost predicate IsTop(s: set<Row>, t: Row) { t in s && forall r :: r in s && r != t ==> Above(t, r) }

  lemma {:induction false} TopExists(s: set<Row>)
    requires s != {} && UniqueIds(s)
    ensures exists t :: IsTop(s, t)
    decreases |s|
  {
    var x :| x in s;
    var rest := s - {x};
    if rest == {} {
      assert forall r :: r in s ==> r == x by { assert forall r :: r in s && r != x ==> r in rest; }
      assert IsTop(s, x);
    } else {
      TopExists(rest);
      var t :| IsTop(rest, t);
      var best := if Above(x, t) then x else t;
      forall r | r in s && r != best ensures Above(best, r) {
        if r != x { assert r in rest; }
      }
      assert IsTop(s, best);
    }
  }

  /** The rows in the store's order. */
  ghost function Listing(s: set<Row>): seq<Row>
    requires UniqueIds(s)
    decreases |s|
  {
    if s == {} then []
    else
      TopExists(s);
      var t :| IsTop(s, t);
      [t] + Listing(s - {t})
  }

  /** The listing is the rows, each once, strictly from the newest down. */
  lemma {:induction false} ListingIsOrdered(s: set<Row>)
    requires UniqueIds(s)
    ensures |Listing(s)| == |s| && (forall r :: r in Listing(s) <==> r in s)
    ensures forall i, j :: 0 <= i < j < |Listing(s)| ==> Above(Listing(s)[i], Listing(s)[j])
    decreases |s|
  {
    hide Listing, UniqueIds;
    if s == {} {
      NothingListed();
    } else {
      var l := Listing(s);
      TopOfListing(s);
      var t := l[0];
      var rest := s - {t};
      ListingIsOrdered(rest);
      forall i, j | 0 <= i < j < |l| ensures Above(l[i], l[j]) {
        assert l[j] == Listing(rest)[j - 1] && l[j] in rest;
        if i > 0 { assert l[i] == Listing(rest)[i - 1]; }
      }
    }
  }

  lemma NothingListed() ensures Listing({}) == [] {}

  lemma TopOfListing(s: set<Row>)
    requires s != {} && UniqueIds(s)
    ensures Listing(s) != [] && IsTop(s, Listing(s)[0]) && UniqueIds(s - {Listing(s)[0]})
    ensures Listing(s) == [Listing(s)[0]] + Listing(s - {Listing(s)[0]})
  {
    TopExists(s);
  }

  ghost function BelowRow(s: set<Row>, c: Row): set<Row> { set r | r in s && Above(c, r) }

  /** What lies below a row of the listing is the rest of the listing. */
  lemma {:induction false} ListingSuffix(s: set<Row>, k: nat)
    requires UniqueIds(s) && k < |Listing(s)|
    ensures Listing(BelowRow(s, Listing(s)[k])) == Listing(s)[k + 1..]
    decreases k
  {
    hide Listing;
    var l := Listing(s);
    ListingIsOrdered(s);
    TopOfListing(s);
    var t := l[0];
    var rest := s - {t};
    if k == 0 {
      assert BelowRow(s, t) == rest;
      assert l[1..] == Listing(rest);
    } else {
      var c := l[k];
      assert |l| == 1 + |Listing(rest)| && c == Listing(rest)[k - 1];
      assert BelowRow(s, c) == BelowRow(rest, c);
      ListingSuffix(rest, k - 1);
      assert l[k + 1..] == Listing(rest)[k..];
    }
  }

  // ------------------------------------------------------------------
  // Queries and pages
  // ------------------------------------------------------------------

  /** What is left of a listing after its first `offset` rows. */
  function From(all: seq<Row>, offset: nat): seq<Row> { if offset <= |all| then all[offset..] else [] }

  /** One page: at most `limit` rows (at least 1 asked for), and whether more follow.
      `LIMIT limit + 1 OFFSET offset` over the ordered selection. */
  ghost function Query(table: set<Row>, f: Filter, before: Option<Cursor>, limit: nat, offset: nat): (seq<Row>, bool)
    requires UniqueIds(table)
  {
    var n := Max(limit, 1);
    var rows := From(Listing(Selected(table, f, before)), offset);
    var fetched := if |rows| > n + 1 then rows[..n + 1] else rows;
    (if |fetched| > n then fetched[..n] else fetched, |fetched| > n)
  }

  lemma QueryIsPrefix(table: set<Row>, f: Filter, before: Option<Cursor>, limit: nat, offset: nat)
    requires UniqueIds(table)
    ensures var rest, n := From(Listing(Selected(table, f, before)), offset), Max(limit, 1);
            && Query(table, f, before, limit, offset).1 == (|rest| > n)
            && Query(table, f, before, limit, offset).0 == if |rest| > n then rest[..n] else rest
  {
    hide Selected, Listing, From;
  }

  function CursorOf(r: Row): Cursor { Cursor(r.startedAt, r.rowid) }

  /** A prefix the range test is exact for, or none. */
  predicate Searchable(p: Option<string>) { p.Some? ==> p.value == "" || PrefixUpper(p.value).Some? }

  /** Which rows are read, field by field: those of the table that started in the half-open span,
      whose direction, trunk, uuid (never an empty one), Call-ID and code are the ones asked
      for, whose caller and callee start with the prefixes, that were answered or not as
      asked, and that come after the cursor; all of those, and no other. */
  lemma ListedWhen(table: set<Row>, f: Filter, before: Option<Cursor>, r: Row)
    requires UniqueIds(table) && Searchable(f.callerPrefix) && Searchable(f.calleePrefix)
    ensures r in Listing(Selected(table, f, before)) <==>
              && r in table
              && (f.from.Some? ==> f.from.value <= r.startedAt) && (f.until.Some? ==> r.startedAt < f.until.value)
              && (f.direction.Some? ==> r.direction == f.direction.value)
              && (f.trunk.Some? ==> r.trunk == Some(f.trunk.value))
              && (f.uuid.Some? ==> f.uuid.value != "" && r.uuid == f.uuid.value)
              && (f.callId.Some? ==> r.callId == f.callId.value)
              && (f.callerPrefix.Some? ==> f.callerPrefix.value <= r.caller)
              && (f.calleePrefix.Some? ==> f.calleePrefix.value <= r.callee)
              && (f.sipCode.Some? ==> r.sipCode == Some(f.sipCode.value))
              && (f.answered == Some(true) ==> r.answeredAt.Some?) && (f.answered == Some(false) ==> r.answeredAt.None?)
              && (before.Some? ==>
                    r.startedAt < before.value.startedAt
                    || (r.startedAt == before.value.startedAt && r.rowid < before.value.rowid))
  {
    hide InRange, Listing, PrefixUpper;
    ListingIsOrdered(Selected(table, f, before));
    PrefixTest(f.callerPrefix, r.caller);
    PrefixTest(f.calleePrefix, r.callee);
  }

  lemma PrefixTest(p: Option<string>, s: string)
    requires Searchable(p)
    ensures PrefixOk(p, s) <==> (p.Some? ==> p.value <= s)
  {
    hide InRange, PrefixUpper;
    if p.Some? && p.value != "" { RangeIsPrefix(p.value, s); }
  }

  /** The rows below the last row of a page are the rest of the selection. */
  lemma {:induction false} NextSelection(table: set<Row>, f: Filter, before: Option<Cursor>, k: nat)
    requires UniqueIds(table) && k < |Listing(Selected(table, f, before))|
    ensures var all := Listing(Selected(table, f, before));
            && Listing(Selected(table, f, Some(CursorOf(all[k])))) == all[k + 1..]
            && |Selected(table, f, Some(CursorOf(all[k])))| == |all| - k - 1
  {
    hide Listing, Matches;
    var sel := Selected(table, f, before);
    var c := Listing(sel)[k];
    ListingIsOrdered(sel);
    assert c in sel;
    assert Selected(table, f, Some(CursorOf(c))) == BelowRow(sel, c);
    ListingSuffix(sel, k);
    ListingIsOrdered(BelowRow(sel, c));
  }

  /** How many rows a page may have: what was asked for, fewer when a cap is nearer. */
  function PageLimit(size: nat, cap: Option<nat>): nat { if cap.Some? then Min(cap.value, size) else size }

  function CapLeft(cap: Option<nat>, sent: nat): Option<nat> {
    if cap.Some? then Some(SatSub(cap.value, sent)) else None
  }

  function Capped(s: seq<Row>, cap: Option<nat>): seq<Row> {
    if cap.Some? && cap.value < |s| then s[..cap.value] else s
  }

  ghost predicate AllUnique(tables: seq<set<Row>>) { forall i :: 0 <= i < |tables| ==> UniqueIds(tables[i]) }

  /** Everything read by following cursors: page `i` is read from `tables[i]`, the store as
      it is then, with page size `sizes[i]`; the first page skips `offset` rows, and each
      later one lies below the last row of the one before. It ends when there is no
      more or the cap, if any, is reached. */
  ghost function Pages(tables: seq<set<Row>>, f: Filter, before: Option<Cursor>, offset: nat, sizes: seq<nat>,
                       cap: Option<nat>): seq<Row>
    requires |sizes| == |tables| && AllUnique(tables)
    decreases |tables|
  {
    if cap == Some(0) || tables == [] then []
    else
      var (rows, more) := Query(tables[0], f, before, PageLimit(sizes[0], cap), offset);
      if !more || rows == [] then rows
      else rows + Pages(tables[1..], f, Some(CursorOf(rows[|rows| - 1])), 0, sizes[1..], CapLeft(cap, |rows|))
  }

  /** Between two pages nothing below the cursor that the filter selects came or went. */
  ghost predicate Undisturbed(tables: seq<set<Row>>, f: Filter, before: Option<Cursor>, offset: nat, sizes: seq<nat>,
                              cap: Option<nat>)
    requires |sizes| == |tables| && AllUnique(tables)
    decreases |tables|
  {
    |tables| > 1 && cap != Some(0) ==>
      var (rows, more) := Query(tables[0], f, before, PageLimit(sizes[0], cap), offset);
      more && rows != [] ==>
        var c := Some(CursorOf(rows[|rows| - 1]));
        && Selected(tables[1], f, c) == Selected(tables[0], f, c)
        && Undisturbed(tables[1..], f, c, 0, sizes[1..], CapLeft(cap, |rows|))
  }

  lemma CappedSplit(all: seq<Row>, n: nat, cap: Option<nat>)
    requires n <= |all| && (cap.Some? ==> n <= cap.value)
    ensures all[..n] + Capped(all[n..], CapLeft(cap, n)) == Capped(all, cap)
  {
    if cap.Some? && cap.value < |all| {
      assert all[..n] + all[n..][..cap.value - n] == all[..cap.value];
    } else {
      assert all[..n] + all[n..] == all;
    }
  }

  lemma FromFrom(all: seq<Row>, offset: nat, n: nat)
    requires n <= |From(all, offset)|
    ensures n > 0 ==> offset + n <= |all| && From(all, offset)[n - 1] == all[offset + n - 1]
    ensures n > 0 ==> From(all, offset)[n..] == all[offset + n..]
    ensures From(all, 0) == all
  {
  }

  /** The page after one that ended at the `n`-th row from the offset. */
  lemma NextPage(table: set<Row>, f: Filter, before: Option<Cursor>, offset: nat, n: nat)
    requires UniqueIds(table) && 0 < n <= |From(Listing(Selected(table, f, before)), offset)|
    ensures var rest := From(Listing(Selected(table, f, before)), offset);
            var below := Selected(table, f, Some(CursorOf(rest[n - 1])));
            Listing(below) == rest[n..] && |below| < |Selected(table, f, before)|
  {
    hide Selected, Listing, From;
    var all := Listing(Selected(table, f, before));
    FromFrom(all, offset, n);
    NextSelection(table, f, before, offset + n - 1);
    ListingIsOrdered(Selected(table, f, before));
  }

  /** Keyset paging is exact, for every filter, offset, cap and page sizes: following the
      cursor ends after at most one page per row and yields the filtered table as it
      was at the first page (from the offset, up to the cap), in order, without gap or
      duplicate, whatever happens above the cursor meanwhile. */
  lemma {:induction false} PagingIsExact(tables: seq<set<Row>>, f: Filter, before: Option<Cursor>, offset: nat,
                                         sizes: seq<nat>, cap: Option<nat>)
    requires |sizes| == |tables| >= 1 && AllUnique(tables)
    requires Undisturbed(tables, f, before, offset, sizes, cap)
    requires |tables| > |Selected(tables[0], f, before)|
    ensures Pages(tables, f, before, offset, sizes, cap)
            == Capped(From(Listing(Selected(tables[0], f, before)), offset), cap)
    decreases |tables|
  {
    hide Selected, Listing, Query, From;
    var rest := From(Listing(Selected(tables[0], f, before)), offset);
    if cap == Some(0) {
      assert Capped(rest, cap) == [];
    } else {
      var n := Max(PageLimit(sizes[0], cap), 1);
      QueryIsPrefix(tables[0], f, before, PageLimit(sizes[0], cap), offset);
      if |rest| > n {
        var c := Some(CursorOf(rest[n - 1]));
        assert rest[..n][n - 1] == rest[n - 1];
        NextPage(tables[0], f, before, offset, n);
        PagingIsExact(tables[1..], f, c, 0, sizes[1..], CapLeft(cap, n));
        FromFrom(rest[n..], 0, 0);
        CappedSplit(rest, n, cap);
      }
    }
  }

  const CSV_PAGE: nat := 1000

  /** The CSV export: pages of 1000 from the top, capped by the caller's `limit` if any. */
  lemma CsvExportIsExact(tables: seq<set<Row>>, f: Filter, before: Option<Cursor>, cap: Option<nat>)
    requires |tables| >= 1 && AllUnique(tables) && |tables| > |Selected(tables[0], f, before)|
    requires Undisturbed(tables, f, before, 0, seq(|tables|, _ => CSV_PAGE), cap)
    ensures Pages(tables, f, before, 0, seq(|tables|, _ => CSV_PAGE), cap)
            == Capped(Listing(Selected(tables[0], f, before)), cap)
  {
    hide Selected, Listing, Pages, Undisturbed, Capped;
    PagingIsExact(tables, f, before, 0, seq(|tables|, _ => CSV_PAGE), cap);
    FromFrom(Listing(Selected(tables[0], f, before)), 0, 0);
  }

  /** A client of the JSON interface that follows `next_cursor`, with whatever `limit` it
      gives each time, reads everything from its first offset on. */
  lemma CursorClientReadsAll(tables: seq<set<Row>>, f: Filter, offset: nat, limits: seq<nat>)
    requires |limits| == |tables| >= 1 && AllUnique(tables) && |tables| > |Selected(tables[0], f, None)|
    requires Undisturbed(tables, f, None, offset, limits, None)
    ensures Pages(tables, f, None, offset, limits, None) == From(Listing(Selected(tables[0], f, None)), offset)
  {
    hide Selected, Listing, Pages, Undisturbed, From;
    PagingIsExact(tables, f, None, offset, limits, None);
  }

  /** Rows inserted above the cursor do not disturb what is still to be read. */
  lemma InsertAboveIsInvisible(table: set<Row>, added: set<Row>, f: Filter, c: Cursor)
    requires forall r :: r in added ==> !Below(r, c)
    ensures Selected(table + added, f, Some(c)) == Selected(table, f, Some(c))
  {
    hide Matches;
  }

  // ------------------------------------------------------------------
  // Retention
  // ------------------------------------------------------------------

  const PURGE_BATCH: nat := 5000

  /** `purge_cdrs_started_before`: some rows older than the cutoff, at most `batch`. */
  method PurgeBatch(table: set<Row>, cutoff: int, batch: nat) returns (rest: set<Row>, n: nat)
    ensures rest <= table && n == |table| - |rest| && n <= batch
    ensures forall r :: r in table && r.startedAt >= cutoff ==> r in rest
    ensures n < batch ==> forall r :: r in rest ==> r.startedAt >= cutoff
  {
    rest, n := table, 0;
    var stale := set r | r in table && r.startedAt < cutoff;
    while n < batch && stale != {}
      invariant rest <= table && n == |table| - |rest| && n <= batch
      invariant stale == set r | r in rest && r.startedAt < cutoff
      invariant forall r :: r in table && r.startedAt >= cutoff ==> r in rest
      decreases batch - n
    {
      var r :| r in stale;
      rest, stale, n := rest - {r}, stale - {r}, n + 1;
    }
    if n < batch {
      assert stale == {};
      forall r | r in rest ensures r.startedAt >= cutoff { assert r !in stale; }
    }
  }

  /** `purge_once`: batches until one deletes nothing. Exactly the rows that old go. */
  method PurgeOnce(table: set<Row>, retentionDays: nat, now: int) returns (rest: set<Row>, total: nat)
    ensures rest == set r | r in table && r.startedAt >= now - retentionDays * 86_400
    ensures total == |table| - |rest|
  {
    var cutoff := now - retentionDays * 86_400;
    rest, total := table, 0;
    var n := 1;
    while n != 0
      invariant rest <= table && total == |table| - |rest|
      invariant forall r :: r in table && r.startedAt >= cutoff ==> r in rest
      invariant n == 0 ==> forall r :: r in rest ==> r.startedAt >= cutoff
      decreases |rest|, n
    {
      rest, n := PurgeBatch(rest, cutoff, PURGE_BATCH);
      total := total + n;
    }
  }
}
