/**
 The freshness receipt: every claim names markers that must occur in README.md or AGENTS.md, and
 the receipt counts them three ways, over everything, by document and by claim.
 */
module ClaimReceipt {
  import opened Counting
  import opened Wrappers

  datatype Document = Readme | Agents

  function DocumentNamed(name: string): Option<Document> {
    if name == "README.md" then Some(Readme) else if name == "AGENTS.md" then Some(Agents) else None
  }

  /** A claim as the snapshot gives it: per document, the markers it needs. */
  datatype Entry = Entry(claimId: string, category: string, status: string, markers: seq<(string, seq<string>)>)

  datatype Marker = Marker(document: Document, text: string)

  datatype Tally = Tally(required: nat, present: nat, missing: nat)

  datatype Claim = Claim(entry: Entry, isFresh: bool, tally: Tally, missingMarkers: seq<Marker>)

  /** The running counts: over everything and for each document. */
  datatype Books = Books(total: Tally, readme: Tally, agents: Tally) {
    function Add(document: Document, found: bool): Books {
      Books(Plus(total, One(found)),
            if document.Readme? then Plus(readme, One(found)) else readme,
            if document.Readme? then agents else Plus(agents, One(found)))
    }
  }

  datatype Receipt = Receipt(books: Books, claims: seq<Claim>, isFresh: bool)

  datatype Error = EmptyClaimId | EmptyCategory | EmptyStatus | EmptyDocumentName | BlankMarker | UnsupportedDocument

  datatype Texts = Texts(readme: string, agents: string)

  predicate Occurs(marker: string, text: string) {
    exists i :: 0 <= i <= |text| && StartsAt(marker, text, i)
  }

  predicate StartsAt(marker: string, text: string, i: nat) {
    i + |marker| <= |text| && text[i..i + |marker|] == marker
  }

  function TextOf(t: Texts, document: Document): string { if document.Readme? then t.readme else t.agents }

  /** Whether a marker occurs in its document. */
  function Search(t: Texts): Marker -> bool { (m: Marker) => Occurs(m.text, TextOf(t, m.document)) }

  /** What a tally counts: every marker, or those of one document. */
  datatype Scope = Everything | In(document: Document) {
    predicate Covers(m: Marker) { Everything? || m.document == document }
  }

  /** The markers of one document, and of one claim, in order. */
  function Listed(document: Document, texts: seq<string>): seq<Marker> {
    if texts == [] then [] else Listed(document, texts[..|texts| - 1]) + [Marker(document, texts[|texts| - 1])]
  }

  function ListedUnder(name: string, texts: seq<string>): seq<Marker> {
    var document := DocumentNamed(name);
    if document.None? then [] else Listed(document.value, texts)
  }

  function ItemsOf(markers: seq<(string, seq<string>)>): seq<Marker> {
    if markers == [] then []
    else
      var (name, texts) := markers[|markers| - 1];
      ItemsOf(markers[..|markers| - 1]) + ListedUnder(name, texts)
  }

  function AllItems(entries: seq<Entry>): seq<Marker> {
    if entries == [] then [] else AllItems(entries[..|entries| - 1]) + ItemsOf(entries[|entries| - 1].markers)
  }

  function Plus(a: Tally, b: Tally): Tally {
    Tally(a.required + b.required, a.present + b.present, a.missing + b.missing)
  }

  function One(present: bool): Tally { Tally(1, Bit(present), Bit(!present)) }

  function Nothing(): Tally { Tally(0, 0, 0) }

  ghost function TallyOf(found: Marker -> bool, items: seq<Marker>, scope: Scope): Tally {
    if items == [] then Nothing()
    else
      var rest, m := TallyOf(found, items[..|items| - 1], scope), items[|items| - 1];
      if scope.Covers(m) then Plus(rest, One(found(m))) else rest
  }

  lemma AddTally(found: Marker -> bool, items: seq<Marker>, m: Marker, scope: Scope)
    ensures TallyOf(found, items + [m], scope)
      == if scope.Covers(m) then Plus(TallyOf(found, items, scope), One(found(m))) else TallyOf(found, items, scope)
  {
    assert (items + [m])[..|items|] == items;
  }

  lemma PlusNone(a: Tally)
    ensures Plus(a, Nothing()) == a
  {
  }

  lemma PlusAssoc(a: Tally, b: Tally, c: Tally)
    ensures Plus(Plus(a, b), c) == Plus(a, Plus(b, c)) && Plus(Plus(a, b), c) == Plus(Plus(a, c), b)
  {
  }

  lemma {:induction false} TallyAppend(found: Marker -> bool, a: seq<Marker>, b: seq<Marker>, scope: Scope)
    ensures TallyOf(found, a + b, scope) == Plus(TallyOf(found, a, scope), TallyOf(found, b, scope))
  {
    if b == [] {
      assert a + b == a;
      PlusNone(TallyOf(found, a, scope));
    } else {
      var front, m := b[..|b| - 1], b[|b| - 1];
      assert b == front + [m] && a + b == (a + front) + [m];
      TallyAppend(found, a, front, scope);
      AddTally(found, a + front, m, scope);
      AddTally(found, front, m, scope);
      PlusAssoc(TallyOf(found, a, scope), TallyOf(found, front, scope), One(found(m)));
    }
  }

  // Validation.

  /** White space as Unicode has it, which is what `strip` removes. */
  predicate White(c: char) {
    || '\t' <= c <= '\r' || '\U{1C}' <= c <= ' ' || c == '\U{85}' || c == '\U{A0}' || c == '\U{1680}'
    || '\U{2000}' <= c <= '\U{200A}' || c == '\U{2028}' || c == '\U{2029}' || c == '\U{202F}' || c == '\U{205F}'
    || c == '\U{3000}'
  }

  predicate Blank(s: string) { forall i :: 0 <= i < |s| ==> White(s[i]) }

  function MarkersError(markers: seq<(string, seq<string>)>): Option<Error> {
    if markers == [] then None
    else
      var (document, texts) := markers[0];
      if document == "" then Some(EmptyDocumentName)
      else if exists i :: 0 <= i < |texts| && Blank(texts[i]) then Some(BlankMarker)
      else MarkersError(markers[1..])
  }

  function EntryError(e: Entry): Option<Error> {
    if e.claimId == "" then Some(EmptyClaimId)
    else if e.category == "" then Some(EmptyCategory)
    else if e.status == "" then Some(EmptyStatus)
    else if MarkersError(e.markers).Some? then MarkersError(e.markers)
    else if exists i :: 0 <= i < |e.markers| && DocumentNamed(e.markers[i].0).None? then Some(UnsupportedDocument)
    else None
  }

  /** A text with something in it but white space. */
  ghost predicate Written(text: string) { exists i :: 0 <= i < |text| && !White(text[i]) }

  ghost predicate GroupOk(group: (string, seq<string>)) {
    group.0 in {"README.md", "AGENTS.md"} && forall i :: 0 <= i < |group.1| ==> Written(group.1[i])
  }

  ghost predicate GroupRead(group: (string, seq<string>)) {
    group.0 != "" && !exists i :: 0 <= i < |group.1| && Blank(group.1[i])
  }

  lemma {:induction false} MarkersReadIff(markers: seq<(string, seq<string>)>)
    ensures MarkersError(markers).None? <==> forall d :: 0 <= d < |markers| ==> GroupRead(markers[d])
  {
    if markers != [] {
      var rest := markers[1..];
      MarkersReadIff(rest);
      assert MarkersError(markers).None? <==> GroupRead(markers[0]) && MarkersError(rest).None?;
      assert forall d :: 0 <= d < |rest| ==> rest[d] == markers[d + 1];
      if forall d :: 0 <= d < |rest| ==> GroupRead(rest[d]) {
        forall d | 0 < d < |markers| ensures GroupRead(markers[d]) { assert markers[d] == rest[d - 1]; }
      }
    }
  }

  lemma GroupOkIff(group: (string, seq<string>))
    ensures GroupOk(group) <==> GroupRead(group) && DocumentNamed(group.0).Some?
  {
    forall i | 0 <= i < |group.1| ensures Written(group.1[i]) <==> !Blank(group.1[i]) {
    }
  }

  /** Which claims are counted: id, category and status given, known documents and no blank marker. */
  lemma EntryOkIff(e: Entry)
    ensures EntryError(e).None? <==>
      (e.claimId != "" && e.category != "" && e.status != "" &&
       forall d :: 0 <= d < |e.markers| ==> GroupOk(e.markers[d]))
  {
    MarkersReadIff(e.markers);
    forall d | 0 <= d < |e.markers|
      ensures GroupOk(e.markers[d]) <==> GroupRead(e.markers[d]) && DocumentNamed(e.markers[d].0).Some?
    {
      GroupOkIff(e.markers[d]);
    }
  }

  // Counting.

  ghost predicate Accounts(found: Marker -> bool, items: seq<Marker>, b: Books) {
    && b.total == TallyOf(found, items, Everything)
    && b.readme == TallyOf(found, items, In(Readme))
    && b.agents == TallyOf(found, items, In(Agents))
  }

  /** The items that were found, or that were not, in order. */
  function Selected(found: Marker -> bool, items: seq<Marker>, want: bool): seq<Marker> {
    if items == [] then []
    else
      var rest, m := Selected(found, items[..|items| - 1], want), items[|items| - 1];
      if found(m) == want then rest + [m] else rest
  }

  ghost predicate Sorted(found: Marker -> bool, items: seq<Marker>, present: seq<Marker>, missing: seq<Marker>) {
    present == Selected(found, items, true) && missing == Selected(found, items, false)
  }

  lemma AddSelected(found: Marker -> bool, items: seq<Marker>, m: Marker, want: bool)
    ensures Selected(found, items + [m], want)
      == Selected(found, items, want) + if found(m) == want then [m] else []
  {
    assert (items + [m])[..|items|] == items;
  }

  lemma {:induction false} SelectedTally(found: Marker -> bool, items: seq<Marker>)
    ensures var p, q := |Selected(found, items, true)|, |Selected(found, items, false)|;
      TallyOf(found, items, Everything) == Tally(p + q, p, q)
  {
    if items != [] { SelectedTally(found, items[..|items| - 1]); }
  }

  lemma AddMarker(found: Marker -> bool, items: seq<Marker>, m: Marker, b: Books)
    requires Accounts(found, items, b)
    ensures Accounts(found, items + [m], b.Add(m.document, found(m)))
  {
    AddTally(found, items, m, Everything);
    AddTally(found, items, m, In(Readme));
    AddTally(found, items, m, In(Agents));
  }

  /** The markers of one document in one claim. */
  method CountDocument(found: Marker -> bool, document: Document, texts: seq<string>, b: Books, present: seq<Marker>,
                       missing: seq<Marker>, ghost all: seq<Marker>, ghost items: seq<Marker>)
      returns (b': Books, present': seq<Marker>, missing': seq<Marker>)
    requires Accounts(found, all, b) && Sorted(found, items, present, missing)
    ensures Accounts(found, all + Listed(document, texts), b')
    ensures Sorted(found, items + Listed(document, texts), present', missing')
  {
    b', present', missing' := b, present, missing;
    assert all + [] == all && items + [] == items;
    for i := 0 to |texts|
      invariant Accounts(found, all + Listed(document, texts[..i]), b')
      invariant Sorted(found, items + Listed(document, texts[..i]), present', missing')
    {
      var m := Marker(document, texts[i]);
      ghost var done := Listed(document, texts[..i]);
      ListedNext(document, texts, i, all, items);
      AddMarker(found, all + done, m, b');
      AddSelected(found, items + done, m, true);
      AddSelected(found, items + done, m, false);
      var occurs := found(m);
      b' := b'.Add(document, occurs);
      if occurs { present' := present' + [m]; } else { missing' := missing' + [m]; }
    }
    assert texts[..|texts|] == texts;
  }

  lemma ListedNext(document: Document, texts: seq<string>, i: nat, a: seq<Marker>, b: seq<Marker>)
    requires i < |texts|
    ensures var next, done := Listed(document, texts[..i + 1]), Listed(document, texts[..i]);
      var m := Marker(document, texts[i]);
      a + next == (a + done) + [m] && b + next == (b + done) + [m]
  {
    assert texts[..i + 1][..i] == texts[..i];
  }

  ghost predicate ClaimOk(found: Marker -> bool, e: Entry, c: Claim) {
    && c.entry == e && c.tally == TallyOf(found, ItemsOf(e.markers), Everything)
    && c.missingMarkers == Selected(found, ItemsOf(e.markers), false) && (c.isFresh <==> c.tally.missing == 0)
  }

  lemma ItemsNext(markers: seq<(string, seq<string>)>, d: nat, document: Document, all: seq<Marker>)
    requires d < |markers| && DocumentNamed(markers[d].0) == Some(document)
    ensures var done, more := ItemsOf(markers[..d]), Listed(document, markers[d].1);
      ItemsOf(markers[..d + 1]) == done + more && (all + done) + more == all + ItemsOf(markers[..d + 1])
  {
    assert markers[..d + 1][..d] == markers[..d];
  }

  lemma KnownDocument(e: Entry, d: nat)
    requires EntryError(e).None? && d < |e.markers|
    ensures DocumentNamed(e.markers[d].0).Some?
  {
  }

  method CountEntry(found: Marker -> bool, e: Entry, b: Books, ghost all: seq<Marker>) returns (b': Books, claim: Claim)
    requires Accounts(found, all, b) && EntryError(e).None?
    ensures Accounts(found, all + ItemsOf(e.markers), b') && ClaimOk(found, e, claim)
  {
    b' := b;
    var present, missing := [], [];
    assert all + [] == all;
    for d := 0 to |e.markers|
      invariant Accounts(found, all + ItemsOf(e.markers[..d]), b')
      invariant Sorted(found, ItemsOf(e.markers[..d]), present, missing)
    {
      ghost var done := ItemsOf(e.markers[..d]);
      var (name, texts) := e.markers[d];
      KnownDocument(e, d);
      var document := DocumentNamed(name).value;
      b', present, missing := CountDocument(found, document, texts, b', present, missing, all + done, done);
      ItemsNext(e.markers, d, document, all);
    }
    assert e.markers[..|e.markers|] == e.markers;
    SelectedTally(found, ItemsOf(e.markers));
    claim := Claim(e, missing == [], Tally(|present| + |missing|, |present|, |missing|), missing);
  }

  lemma AllItemsNext(entries: seq<Entry>, k: nat)
    requires k < |entries|
    ensures AllItems(entries[..k + 1]) == AllItems(entries[..k]) + ItemsOf(entries[k].markers)
  {
    assert entries[..k + 1][..k] == entries[..k];
  }

  /** The first k claims are in the books. */
  ghost predicate Counted(found: Marker -> bool, entries: seq<Entry>, k: nat, b: Books, claims: seq<Claim>)
    requires k <= |entries|
  {
    && Accounts(found, AllItems(entries[..k]), b)
    && |claims| == k && forall i :: 0 <= i < k ==> ClaimOk(found, entries[i], claims[i])
  }

  lemma CountedNext(found: Marker -> bool, entries: seq<Entry>, k: nat, b: Books, claims: seq<Claim>,
                    b': Books, claim: Claim)
    requires k < |entries| && Counted(found, entries, k, b, claims)
    requires Accounts(found, AllItems(entries[..k]) + ItemsOf(entries[k].markers), b')
    requires ClaimOk(found, entries[k], claim)
    ensures Counted(found, entries, k + 1, b', claims + [claim])
  {
    AllItemsNext(entries, k);
    var more := claims + [claim];
    forall i | 0 <= i < k + 1 ensures ClaimOk(found, entries[i], more[i]) {
      if i < k { assert more[i] == claims[i]; } else { assert more[i] == claim; }
    }
  }

  ghost predicate Valid(e: Entry) { EntryError(e).None? }

  ghost predicate FirstError(entries: seq<Entry>, k: nat, error: Error)
    requires k < |entries|
  {
    EntryError(entries[k]) == Some(error) && forall i :: 0 <= i < k ==> Valid(entries[i])
  }

  /** Counts until the first bad entry. */
  method CountEntries(found: Marker -> bool, entries: seq<Entry>) returns (stop: nat, b: Books, claims: seq<Claim>)
    ensures stop <= |entries| && Counted(found, entries, stop, b, claims)
    ensures forall i :: 0 <= i < stop ==> Valid(entries[i])
    ensures stop < |entries| ==> !Valid(entries[stop])
  {
    stop, b, claims := 0, Books(Nothing(), Nothing(), Nothing()), [];
    while stop < |entries|
      invariant stop <= |entries| && Counted(found, entries, stop, b, claims)
      invariant forall i :: 0 <= i < stop ==> Valid(entries[i])
    {
      if EntryError(entries[stop]).Some? {
        return;
      }
      var b', claim := CountEntry(found, entries[stop], b, AllItems(entries[..stop]));
      CountedNext(found, entries, stop, b, claims, b', claim);
      b, claims, stop := b', claims + [claim], stop + 1;
    }
  }

  /** The first bad entry makes the whole receipt an error. */
  method BuildReceipt(t: Texts, entries: seq<Entry>) returns (r: Result<Receipt, Error>)
    ensures r.Ok? ==> Reports(Search(t), entries, r.value) && forall i :: 0 <= i < |entries| ==> Valid(entries[i])
    ensures r.Err? ==> exists k :: 0 <= k < |entries| && FirstError(entries, k, r.error)
  {
    var stop, b, claims := CountEntries(Search(t), entries);
    if stop < |entries| {
      assert FirstError(entries, stop, EntryError(entries[stop]).value);
      return Err(EntryError(entries[stop]).value);
    }
    assert entries[..stop] == entries;
    return Ok(Receipt(b, claims, b.total.missing == 0));
  }

  ghost predicate Reports(found: Marker -> bool, entries: seq<Entry>, r: Receipt) {
    && Accounts(found, AllItems(entries), r.books)
    && |r.claims| == |entries| && (forall i :: 0 <= i < |entries| ==> ClaimOk(found, entries[i], r.claims[i]))
    && (r.isFresh <==> r.books.total.missing == 0)
  }

  // What the counts say.

  predicate Balances(y: Tally) { y.required == y.present + y.missing }

  /** Required is present plus missing, over everything and for each document. */
  lemma {:induction false} TallyBalances(found: Marker -> bool, items: seq<Marker>, scope: Scope)
    ensures Balances(TallyOf(found, items, scope))
  {
    if items != [] { TallyBalances(found, items[..|items| - 1], scope); }
  }

  ghost predicate AddsUp(total: Tally, a: Tally, b: Tally) {
    total == Plus(a, b)
  }

  lemma StillAddsUp(total: Tally, a: Tally, b: Tally, one: Tally)
    requires AddsUp(total, a, b)
    ensures AddsUp(Plus(total, one), Plus(a, one), b) && AddsUp(Plus(total, one), a, Plus(b, one))
  {
  }

  /** The two documents add up to the total. */
  lemma {:induction false} DocumentsAddUp(found: Marker -> bool, items: seq<Marker>)
    ensures AddsUp(TallyOf(found, items, Everything),
                   TallyOf(found, items, In(Readme)), TallyOf(found, items, In(Agents)))
  {
    if items != [] {
      var front, m := items[..|items| - 1], items[|items| - 1];
      DocumentsAddUp(found, front);
      StillAddsUp(TallyOf(found, front, Everything), TallyOf(found, front, In(Readme)),
                  TallyOf(found, front, In(Agents)), One(found(m)));
    } else {
      PlusNone(Nothing());
    }
  }

  function SumClaims(claims: seq<Claim>): Tally {
    if claims == [] then Nothing() else Plus(SumClaims(claims[..|claims| - 1]), claims[|claims| - 1].tally)
  }

  /** So do the claims. */
  lemma {:induction false} ClaimsAddUp(found: Marker -> bool, entries: seq<Entry>, claims: seq<Claim>)
    requires |claims| == |entries| && forall i :: 0 <= i < |entries| ==> ClaimOk(found, entries[i], claims[i])
    ensures SumClaims(claims) == TallyOf(found, AllItems(entries), Everything)
  {
    if entries != [] {
      var n := |entries| - 1;
      ClaimsAddUp(found, entries[..n], claims[..n]);
      TallyAppend(found, AllItems(entries[..n]), ItemsOf(entries[n].markers), Everything);
      assert ClaimOk(found, entries[n], claims[n]);
    }
  }

  /** The whole is fresh exactly when every claim is. */
  lemma {:induction false} AllClaimsFresh(claims: seq<Claim>)
    requires forall i :: 0 <= i < |claims| ==> (claims[i].isFresh <==> claims[i].tally.missing == 0)
    ensures SumClaims(claims).missing == 0 <==> forall i :: 0 <= i < |claims| ==> claims[i].isFresh
  {
    if claims != [] {
      var front := claims[..|claims| - 1];
      AllClaimsFresh(front);
      assert forall i :: 0 <= i < |front| ==> front[i] == claims[i];
    }
  }

  ghost predicate AllFound(found: Marker -> bool, items: seq<Marker>) {
    forall i :: 0 <= i < |items| ==> found(items[i])
  }

  lemma AllFoundLast(found: Marker -> bool, items: seq<Marker>)
    requires items != []
    ensures AllFound(found, items) <==> AllFound(found, items[..|items| - 1]) && found(items[|items| - 1])
  {
    var front := items[..|items| - 1];
    assert forall i :: 0 <= i < |front| ==> front[i] == items[i];
  }

  /** Nothing is missing exactly when every marker occurs in its document. */
  lemma {:induction false} FreshIff(found: Marker -> bool, items: seq<Marker>)
    ensures TallyOf(found, items, Everything).missing == 0 <==> AllFound(found, items)
  {
    if items != [] {
      FreshIff(found, items[..|items| - 1]);
      AllFoundLast(found, items);
    }
  }

  // The verdict in terms of the documents.

  ghost predicate Contains(text: string, marker: string) {
    exists before: string, after: string :: text == before + marker + after
  }

  /** Every marker that the claim lists under that name is in the text. */
  ghost predicate MarkersIn(text: string, name: string, markers: seq<(string, seq<string>)>) {
    forall d, i :: 0 <= d < |markers| && markers[d].0 == name && 0 <= i < |markers[d].1| ==>
      Contains(text, markers[d].1[i])
  }

  ghost predicate AllMarkersIn(text: string, name: string, entries: seq<Entry>) {
    forall k :: 0 <= k < |entries| ==> MarkersIn(text, name, entries[k].markers)
  }

  /** The markers of one document among the items have been found. */
  ghost predicate DocumentFound(found: Marker -> bool, items: seq<Marker>, document: Document) {
    forall i :: 0 <= i < |items| && items[i].document == document ==> found(items[i])
  }

  lemma DocumentFoundConcat(found: Marker -> bool, a: seq<Marker>, b: seq<Marker>, document: Document)
    ensures DocumentFound(found, a + b, document) <==>
      DocumentFound(found, a, document) && DocumentFound(found, b, document)
  {
    var c := a + b;
    if DocumentFound(found, c, document) {
      forall i | 0 <= i < |a| && a[i].document == document ensures found(a[i]) { assert c[i] == a[i]; }
      forall i | 0 <= i < |b| && b[i].document == document ensures found(b[i]) { assert c[|a| + i] == b[i]; }
    }
  }

  lemma {:induction false} ListedAre(document: Document, texts: seq<string>)
    ensures |Listed(document, texts)| == |texts|
    ensures forall i :: 0 <= i < |texts| ==> Listed(document, texts)[i] == Marker(document, texts[i])
  {
    if texts != [] { ListedAre(document, texts[..|texts| - 1]); }
  }

  function NameOf(document: Document): string { if document.Readme? then "README.md" else "AGENTS.md" }

  lemma UnderFound(t: Texts, document: Document, name: string, texts: seq<string>)
    ensures DocumentFound(Search(t), ListedUnder(name, texts), document) <==>
      (name == NameOf(document) ==> forall i :: 0 <= i < |texts| ==> Contains(TextOf(t, document), texts[i]))
  {
    forall text: string, m: string ensures Occurs(m, text) <==> Contains(text, m) { OccursIff(m, text); }
    if DocumentNamed(name).Some? {
      var listed := DocumentNamed(name).value;
      ListedAre(listed, texts);
      if listed == document {
        forall i | 0 <= i < |texts|
          ensures Search(t)(Listed(listed, texts)[i]) <==> Contains(TextOf(t, document), texts[i])
        {
        }
      }
    }
  }

  lemma OccursIff(marker: string, text: string)
    ensures Occurs(marker, text) <==> Contains(text, marker)
  {
    if i :| 0 <= i <= |text| && StartsAt(marker, text, i) {
      assert text == text[..i] + marker + text[i + |marker|..];
    }
    if before: string, after: string :| text == before + marker + after {
      assert StartsAt(marker, text, |before|);
    }
  }

  lemma {:induction false} ItemsFound(t: Texts, document: Document, markers: seq<(string, seq<string>)>)
    ensures DocumentFound(Search(t), ItemsOf(markers), document) <==>
      MarkersIn(TextOf(t, document), NameOf(document), markers)
  {
    if markers != [] {
      var front := markers[..|markers| - 1];
      var (name, texts) := markers[|markers| - 1];
      ItemsFound(t, document, front);
      UnderFound(t, document, name, texts);
      DocumentFoundConcat(Search(t), ItemsOf(front), ListedUnder(name, texts), document);
      MarkersInLast(TextOf(t, document), NameOf(document), markers);
    }
  }

  lemma MarkersInLast(text: string, name: string, markers: seq<(string, seq<string>)>)
    requires markers != []
    ensures var front, last := markers[..|markers| - 1], markers[|markers| - 1];
      MarkersIn(text, name, markers) <==>
        (MarkersIn(text, name, front) &&
         (last.0 == name ==> forall i :: 0 <= i < |last.1| ==> Contains(text, last.1[i])))
  {
    var front := markers[..|markers| - 1];
    assert forall d :: 0 <= d < |front| ==> front[d] == markers[d];
  }

  lemma {:induction false} EntriesFound(t: Texts, document: Document, entries: seq<Entry>)
    ensures DocumentFound(Search(t), AllItems(entries), document) <==>
      AllMarkersIn(TextOf(t, document), NameOf(document), entries)
  {
    if entries != [] {
      var front, last := entries[..|entries| - 1], entries[|entries| - 1];
      EntriesFound(t, document, front);
      ItemsFound(t, document, last.markers);
      DocumentFoundConcat(Search(t), AllItems(front), ItemsOf(last.markers), document);
      AllMarkersInLast(TextOf(t, document), NameOf(document), entries);
    }
  }

  lemma AllMarkersInLast(text: string, name: string, entries: seq<Entry>)
    requires entries != []
    ensures AllMarkersIn(text, name, entries) <==>
      AllMarkersIn(text, name, entries[..|entries| - 1]) && MarkersIn(text, name, entries[|entries| - 1].markers)
  {
    var front := entries[..|entries| - 1];
    if AllMarkersIn(text, name, entries) {
      forall k | 0 <= k < |front| ensures MarkersIn(text, name, front[k].markers) { assert front[k] == entries[k]; }
    } else {
      var k :| 0 <= k < |entries| && !MarkersIn(text, name, entries[k].markers);
      if k < |front| { assert front[k] == entries[k]; }
    }
  }

  /** Nothing is missing from a document exactly when its markers have been found. */
  lemma {:induction false} DocumentFreshIff(found: Marker -> bool, items: seq<Marker>, document: Document)
    ensures TallyOf(found, items, In(document)).missing == 0 <==> DocumentFound(found, items, document)
  {
    if items != [] {
      var front, m := items[..|items| - 1], items[|items| - 1];
      DocumentFreshIff(found, front, document);
      DocumentFoundConcat(found, front, [m], document);
      assert items == front + [m];
    }
  }

  /**
   The README row is clean exactly when every marker a claim lists under README.md is a slice of that
   text, the AGENTS row likewise, and the verdict is fresh exactly when both are.
   */
  lemma VerdictIff(t: Texts, entries: seq<Entry>, r: Receipt)
    requires Reports(Search(t), entries, r)
    ensures r.books.readme.missing == 0 <==> AllMarkersIn(t.readme, "README.md", entries)
    ensures r.books.agents.missing == 0 <==> AllMarkersIn(t.agents, "AGENTS.md", entries)
    ensures r.isFresh <==> AllMarkersIn(t.readme, "README.md", entries) && AllMarkersIn(t.agents, "AGENTS.md", entries)
  {
    var found, items := Search(t), AllItems(entries);
    DocumentFreshIff(found, items, Readme);
    DocumentFreshIff(found, items, Agents);
    EntriesFound(t, Readme, entries);
    EntriesFound(t, Agents, entries);
    DocumentsAddUp(found, items);
  }

  /** All the books agree, and the verdict is what every marker and every claim says. */
  lemma ReceiptLaws(t: Texts, entries: seq<Entry>, r: Receipt)
    requires Reports(Search(t), entries, r)
    ensures Balances(r.books.total) && Balances(r.books.readme) && Balances(r.books.agents)
    ensures forall i :: 0 <= i < |r.claims| ==> Balances(r.claims[i].tally)
    ensures AddsUp(r.books.total, r.books.readme, r.books.agents) && SumClaims(r.claims) == r.books.total
    ensures r.isFresh <==> AllFound(Search(t), AllItems(entries))
    ensures r.isFresh <==> forall i :: 0 <= i < |r.claims| ==> r.claims[i].isFresh
  {
    var found, items := Search(t), AllItems(entries);
    TallyBalances(found, items, Everything);
    TallyBalances(found, items, In(Readme));
    TallyBalances(found, items, In(Agents));
    DocumentsAddUp(found, items);
    ClaimsAddUp(found, entries, r.claims);
    FreshIff(found, items);
    forall i | 0 <= i < |r.claims|
      ensures Balances(r.claims[i].tally) && (r.claims[i].isFresh <==> r.claims[i].tally.missing == 0)
    {
      assert ClaimOk(found, entries[i], r.claims[i]);
      TallyBalances(found, ItemsOf(entries[i].markers), Everything);
    }
    AllClaimsFresh(r.claims);
  }
}
