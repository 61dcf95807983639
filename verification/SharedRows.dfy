/** Rows of spelled terms into payloads, and what sharing an allocation saves. */
module SharedRows {
  import opened Base
  import opened Payloads
  import opened Encode

  /** A term's string: which allocation it is, its text, whether that
      allocation is held more than once. */
  datatype Term = Term(address: nat, text: Text, shared: bool)

  /** One allocation holds one text. */
  ghost predicate InHeap(rows: seq<Quad<Term>>, heap: map<nat, Text>) {
    forall p :: 0 <= p < 4 * |rows| ==> TermIn(Positions(rows)[p], heap)
  }

  ghost predicate TermIn(term: Term, heap: map<nat, Text>) {
    term.address in heap && heap[term.address] == term.text
  }

  /** The entries a chunk already sent its shared terms under. */
  ghost predicate SentAs(sent: map<nat, int>, c: Chunk, heap: map<nat, Text>) {
    forall key :: key in sent ==> key in heap && Spells(c, sent[key], Some(heap[key]))
  }

  /** What a row adds to a chunk, from above: a shared term not sent before
      counts each time the row holds it. */
  function NewBytes(row: Quad<Term>, sent: set<nat>, columns: nat): (n: nat)
    requires columns <= 4
  {
    if columns == 0 then 0
    else
      var term := At(row, columns - 1);
      NewBytes(row, sent, columns - 1) + if term.shared && term.address in sent then 0 else |term.text|
  }

  /** What a term adds to a chunk that sent the shared terms at `sent`. */
  function NewOf(term: Term, sent: set<nat>): (n: nat) {
    if term.shared && term.address in sent then 0 else |term.text|
  }

  /** What terms add in order: a shared one its bytes once, any other each time. */
  ghost function SentBytes(sent: set<nat>, terms: seq<Term>): (n: nat) {
    if terms == [] then 0
    else
      var last := |terms| - 1;
      SentBytes(sent, terms[..last]) + NewOf(terms[last], sent + SharedAddresses(terms[..last], last))
  }

  lemma {:induction false} SentInTwo(sent: set<nat>, a: seq<Term>, b: seq<Term>)
    ensures SentBytes(sent, a + b) == SentBytes(sent, a) + SentBytes(sent + SharedAddresses(a, |a|), b)
    decreases |b|
  {
    hide NewOf, SharedAddresses;
    if b == [] {
      assert a + b == a;
    } else {
      var last := |b| - 1;
      SentInTwo(sent, a, b[..last]);
      assert (a + b)[..|a + b| - 1] == a + b[..last];
      AddressesOfBoth(a, b[..last]);
      assert sent + (SharedAddresses(a, |a|) + SharedAddresses(b[..last], last)) == sent + SharedAddresses(a, |a|) + SharedAddresses(b[..last], last);
    }
  }

  lemma AddressesOfBoth(a: seq<Term>, b: seq<Term>)
    ensures SharedAddresses(a + b, |a + b|) == SharedAddresses(a, |a|) + SharedAddresses(b, |b|)
  {
    forall i | 0 <= i < |b|
      ensures (a + b)[|a| + i] == b[i]
    {
    }
    assert forall i :: 0 <= i < |a| ==> (a + b)[i] == a[i];
    assert SharedAddresses(a + b, |a + b|) <= SharedAddresses(a, |a|) + SharedAddresses(b, |b|);
    forall x | x in SharedAddresses(b, |b|)
      ensures x in SharedAddresses(a + b, |a + b|)
    {
      var i :| 0 <= i < |b| && b[i].shared && b[i].address == x;
      assert (a + b)[|a| + i].address == x;
    }
  }

  /** The addresses of the shared terms among the first `p` positions. */
  ghost function SharedAddresses(terms: seq<Term>, p: nat): (addresses: set<nat>)
    requires p <= |terms|
  {
    set i | 0 <= i < p && terms[i].shared :: terms[i].address
  }

  /** Every position spells its term. */
  ghost predicate SpellsTerms(terms: seq<Term>, c: Chunk) {
    Readable(c) && |c.terms| == |terms| && forall p :: 0 <= p < |terms| ==> Spells(c, c.terms[p], Some(terms[p].text))
  }

  lemma SpellsMore(terms: seq<Term>, was: Chunk, c: Chunk, term: Term, entry: int)
    requires SpellsTerms(terms, was) && Readable(c) && Keeps(was, c)
    requires c.terms == was.terms + [entry] && Spells(c, entry, Some(term.text))
    ensures SpellsTerms(terms + [term], c)
  {
    hide Readable, Names, Spelled, Keeps;
    forall p | 0 <= p < |terms|
      ensures Spells(c, c.terms[p], Some(terms[p].text))
    {
      assert Spells(was, was.terms[p], Some(terms[p].text));
      SpellsStill(was, c, was.terms[p]);
    }
  }

  lemma SentStill(sent: map<nat, int>, was: Chunk, c: Chunk, heap: map<nat, Text>)
    requires SentAs(sent, was, heap) && Readable(was) && Readable(c) && Keeps(was, c)
    ensures SentAs(sent, c, heap)
  {
    hide Readable, Names, Spelled, Keeps;
    forall key | key in sent
      ensures key in heap && Spells(c, sent[key], Some(heap[key]))
    {
      assert Spells(was, sent[key], Some(heap[key]));
      SpellsStill(was, c, sent[key]);
    }
  }

  /** Appending an entry changes no entry's term. */
  lemma KeepsAppended(was: Chunk, c: Chunk)
    requires Readable(was) && c == was.(terms := c.terms)
    ensures Readable(c) && Keeps(was, c)
  {
    TermsAsideReadable(was, c);
  }

  lemma KeepsTwice(a: Chunk, b: Chunk, c: Chunk)
    requires Readable(a) && Readable(b) && Readable(c) && Keeps(a, b) && Keeps(b, c)
    ensures Keeps(a, c)
  {
  }

  /** What one chunk may hold of shared text beyond what a row adds. */
  ghost predicate Room(c: Chunk, positions: nat) {
    |c.bounds| / 2 + |c.large| <= positions
  }

  /** Sends one term of a row: under the entry it was sent as before the row,
      or, when shared, earlier in it, or as a new term. */
  method SendTerm(payload: Payload, term: Term, known: Option<int>, sent: map<nat, int>, largeTerm: nat,
                  ghost heap: map<nat, Text>, ghost terms: seq<Term>)
    returns (now: map<nat, int>)
    requires SpellsTerms(terms, payload.Packed()) && SentAs(sent, payload.Packed(), heap) && TermIn(term, heap)
    requires known.None? && |term.text| <= largeTerm ==> |payload.text| + |term.text| <= I32_MAX
    requires Room(payload.Packed(), |terms|) && |terms| < I32_MAX
    requires known.Some? ==> term.shared && term.address in sent && sent[term.address] == known.value
    modifies payload
    ensures SpellsTerms(terms + [term], payload.Packed()) && SentAs(now, payload.Packed(), heap)
    ensures forall key :: key in sent ==> key in now && now[key] == sent[key]
    ensures now.Keys == sent.Keys + if term.shared then {term.address} else {}
    ensures Room(payload.Packed(), |terms| + 1)
    ensures ByteCount(payload.Packed()) == ByteCount(old(payload.Packed())) + NewOf(term, sent.Keys)
    ensures |payload.text| <= old(|payload.text|) + if known.Some? || |term.text| > largeTerm then 0 else |term.text|
  {
    hide Readable, Names, Spelled, Keeps, Spells, SumLengths, SpellsTerms, SentAs;
    ghost var was := payload.Packed();
    var entry;
    now := sent;
    SpellsTermsFacts(terms, was);
    if known.Some? {
      entry := known.value;
      SentFacts(sent, was, heap, term.address);
      KeepsAppended(was, was);
    } else if term.shared && term.address in sent {
      entry := sent[term.address];
      SentFacts(sent, was, heap, term.address);
      KeepsAppended(was, was);
    } else {
      entry := payload.Push(term.text, largeTerm);
      SpellsIs(payload.Packed(), entry, term.text);
      SentStill(sent, was, payload.Packed(), heap);
      if term.shared {
        now := sent[term.address := entry];
        SentMore(sent, payload.Packed(), heap, term.address, entry);
      }
    }
    ghost var pushed := payload.Packed();
    payload.terms := payload.terms + [entry];
    KeepsAppended(pushed, payload.Packed());
    SentStill(now, pushed, payload.Packed(), heap);
    SpellsEntry(pushed, payload.Packed(), entry, term.text);
    KeepsTwice(was, pushed, payload.Packed());
    SpellsMore(terms, was, payload.Packed(), term, entry);
  }

  lemma SpellsTermsFacts(terms: seq<Term>, c: Chunk)
    requires SpellsTerms(terms, c)
    ensures Readable(c) && |c.terms| == |terms|
  {
  }

  lemma SentFacts(sent: map<nat, int>, c: Chunk, heap: map<nat, Text>, key: nat)
    requires SentAs(sent, c, heap) && key in sent
    ensures key in heap && Spells(c, sent[key], Some(heap[key]))
  {
  }

  lemma SpellsIs(c: Chunk, entry: int, text: Text)
    requires Readable(c) && Names(c, entry) && Spelled(c, entry) == Some(text)
    ensures Spells(c, entry, Some(text))
  {
  }

  lemma SpellsEntry(was: Chunk, c: Chunk, entry: int, text: Text)
    requires Spells(was, entry, Some(text)) && Readable(c) && Keeps(was, c)
    ensures Spells(c, entry, Some(text))
  {
    SpellsStill(was, c, entry);
  }

  lemma SentMore(sent: map<nat, int>, c: Chunk, heap: map<nat, Text>, key: nat, entry: int)
    requires SentAs(sent, c, heap) && key in heap && Spells(c, entry, Some(heap[key]))
    ensures SentAs(sent[key := entry], c, heap)
  {
  }

  /** The entry a term was sent under before its row. */
  function KnownAs(term: Term, sent: map<nat, int>): (entry: Option<int>) {
    if term.shared && term.address in sent then Some(sent[term.address]) else None
  }

  lemma {:induction false} NewBytesGrow(row: Quad<Term>, sent: set<nat>, a: nat, b: nat)
    requires a <= b <= 4
    ensures NewBytes(row, sent, a) <= NewBytes(row, sent, b)
    decreases b
  {
    if a < b {
      NewBytesGrow(row, sent, a, b - 1);
    }
  }

  /** A row's terms, in a chunk it is the first of or within whose budget it
      fits: either way the shared text stays within the budget. */
  method SendRow(payload: Payload, row: Quad<Term>, sent: map<nat, int>, limits: Limits, ghost heap: map<nat, Text>, ghost terms: seq<Term>)
    returns (now: map<nat, int>)
    requires Payloads.Sound(limits) && |terms| + 4 <= I32_MAX
    requires SpellsTerms(terms, payload.Packed()) && SentAs(sent, payload.Packed(), heap) && Room(payload.Packed(), |terms|)
    requires forall c :: 0 <= c < 4 ==> TermIn(At(row, c), heap)
    requires payload.text == [] || ByteCount(payload.Packed()) + NewBytes(row, sent.Keys, 4) <= limits.chunkBytes
    modifies payload
    ensures SpellsTerms(terms + [row.s, row.p, row.o, row.g], payload.Packed())
    ensures SentAs(now, payload.Packed(), heap) && Room(payload.Packed(), |terms| + 4)
    ensures now.Keys == sent.Keys + SharedAddresses([row.s, row.p, row.o, row.g], 4)
    ensures ByteCount(payload.Packed()) == ByteCount(old(payload.Packed())) + SentBytes(sent.Keys, [row.s, row.p, row.o, row.g])
    ensures ByteCount(payload.Packed()) <= ByteCount(old(payload.Packed())) + NewBytes(row, sent.Keys, 4)
    ensures |payload.text| <= limits.chunkBytes
  {
    hide Readable, Names, Spelled, Keeps, Spells, SumLengths, SpellsTerms, SentAs, Room, TermIn, NewBytes, SharedAddresses, ByteCount, InRowBudget, SentBytes, NewOf;
    ghost var (quad, was) := ([row.s, row.p, row.o, row.g], payload.Packed());
    now := sent;
    RowStarts(row, sent.Keys, limits, was, quad);
    assert terms + quad[..0] == terms;
    for c := 0 to 4
      invariant SpellsTerms(terms + quad[..c], payload.Packed())
      invariant SentAs(now, payload.Packed(), heap) && Room(payload.Packed(), |terms| + c)
      invariant forall key :: key in sent ==> key in now && now[key] == sent[key]
      invariant now.Keys == sent.Keys + SharedAddresses(quad, c)
      invariant InRowBudget(row, sent.Keys, limits, was, payload.Packed(), c)
      invariant ByteCount(payload.Packed()) == ByteCount(was) + SentBytes(sent.Keys, quad[..c])
    {
      var term := At(row, c);
      assert quad[c] == term && quad[..c + 1] == quad[..c] + [term];
      assert terms + quad[..c + 1] == terms + quad[..c] + [term];
      ghost var mid := payload.Packed();
      RowFits(row, sent.Keys, limits, was, mid, c);
      now := SendTerm(payload, term, KnownAs(term, sent), now, limits.largeTerm, heap, terms + quad[..c]);
      NewIsCounted(row, sent.Keys, quad, c);
      RowContinues(row, sent.Keys, limits, was, mid, payload.Packed(), c);
      AddressesNext(quad, c);
    }
    assert quad[..4] == quad;
    RowFits(row, sent.Keys, limits, was, payload.Packed(), 4);
  }

  /** A chunk partway through a row: its bytes counted from above, its shared
      text too when the row is its first. */
  ghost predicate InRowBudget(row: Quad<Term>, sent: set<nat>, limits: Limits, was: Chunk, c: Chunk, columns: nat)
    requires columns <= 4
  {
    && (was.text == [] || ByteCount(was) + NewBytes(row, sent, 4) <= limits.chunkBytes)
    && ByteCount(c) <= ByteCount(was) + NewBytes(row, sent, columns)
    && (was.text == [] ==> |c.text| <= columns * limits.largeTerm)
  }

  lemma RowStarts(row: Quad<Term>, sent: set<nat>, limits: Limits, was: Chunk, quad: seq<Term>)
    requires was.text == [] || ByteCount(was) + NewBytes(row, sent, 4) <= limits.chunkBytes
    ensures InRowBudget(row, sent, limits, was, was, 0)
    ensures |quad| > 0 ==> SharedAddresses(quad, 0) == {}
    ensures SentBytes(sent, []) == 0 && quad[..0] == []
  {
  }

  /** What a term of a row adds is at most what the row counts for it. */
  lemma NewIsCounted(row: Quad<Term>, sent: set<nat>, quad: seq<Term>, c: nat)
    requires c < 4 && quad == [row.s, row.p, row.o, row.g]
    ensures var more := NewOf(At(row, c), sent + SharedAddresses(quad, c));
            && SentBytes(sent, quad[..c + 1]) == SentBytes(sent, quad[..c]) + more
            && more <= (if At(row, c).shared && At(row, c).address in sent then 0 else |At(row, c).text|)
  {
    hide SharedAddresses;
    assert quad[..c + 1][..c] == quad[..c] && quad[c] == At(row, c);
    AddressesOfPrefix(quad, c);
  }

  lemma AddressesOfPrefix(terms: seq<Term>, p: nat)
    requires p <= |terms|
    ensures SharedAddresses(terms[..p], p) == SharedAddresses(terms, p)
  {
    assert forall i :: 0 <= i < p ==> terms[..p][i] == terms[i];
    assert SharedAddresses(terms[..p], p) <= SharedAddresses(terms, p);
    forall x | x in SharedAddresses(terms, p)
      ensures x in SharedAddresses(terms[..p], p)
    {
      var i :| 0 <= i < p && terms[i].shared && terms[i].address == x;
      assert terms[..p][i].address == x;
    }
  }

  lemma RowFits(row: Quad<Term>, sent: set<nat>, limits: Limits, was: Chunk, c: Chunk, columns: nat)
    requires columns <= 4 && Payloads.Sound(limits) && InRowBudget(row, sent, limits, was, c, columns)
    ensures |c.text| <= limits.chunkBytes <= I32_MAX
    ensures ByteCount(c) <= ByteCount(was) + NewBytes(row, sent, columns)
    ensures columns < 4 ==>
              var term := At(row, columns);
              !(term.shared && term.address in sent) && |term.text| <= limits.largeTerm ==> |c.text| + |term.text| <= I32_MAX
  {
    MulMonotone(columns, 4, limits.largeTerm);
    if columns < 4 {
      MulMonotone(columns + 1, 4, limits.largeTerm);
      assert (columns + 1) * limits.largeTerm == columns * limits.largeTerm + limits.largeTerm;
      NewBytesGrow(row, sent, columns + 1, 4);
    }
    NewBytesGrow(row, sent, columns, 4);
  }

  lemma RowContinues(row: Quad<Term>, sent: set<nat>, limits: Limits, was: Chunk, mid: Chunk, c: Chunk, columns: nat)
    requires columns < 4 && InRowBudget(row, sent, limits, was, mid, columns)
    requires var term := At(row, columns);
             var known := term.shared && term.address in sent;
             && ByteCount(c) <= ByteCount(mid) + (if known then 0 else |term.text|)
             && |c.text| <= |mid.text| + (if known || |term.text| > limits.largeTerm then 0 else |term.text|)
    ensures InRowBudget(row, sent, limits, was, c, columns + 1)
  {
    assert (columns + 1) * limits.largeTerm == columns * limits.largeTerm + limits.largeTerm;
  }

  lemma AddressesNext(terms: seq<Term>, p: nat)
    requires p < |terms|
    ensures SharedAddresses(terms, p + 1) == SharedAddresses(terms, p) + if terms[p].shared then {terms[p].address} else {}
  {
  }

  /** Sends rows while their terms fit, each shared allocation once. A row is
      held back only when, counted from above, it would pass the budget; a chunk
      past its budget is one row, and then only by large terms. */
  method EncodeShared(rows: seq<Quad<Term>>, limits: Limits, ghost heap: map<nat, Text>) returns (payload: Payload, held: nat)
    requires Payloads.Sound(limits) && InHeap(rows, heap)
    ensures fresh(payload) && held <= Min(|rows|, limits.rows) && (rows != [] ==> held >= 1)
    ensures SpellsTerms(Positions(rows[..held]), payload.Packed())
    ensures ByteCount(payload.Packed()) == SentBytes({}, Positions(rows[..held]))
    ensures |payload.text| <= limits.chunkBytes
    ensures ByteCount(payload.Packed()) > limits.chunkBytes ==> held == 1
    ensures held < Min(|rows|, limits.rows) ==>
              ByteCount(payload.Packed()) + NewBytes(rows[held], SharedAddresses(Positions(rows), 4 * held), 4) > limits.chunkBytes
  {
    hide SpellsTerms, SentAs, Room, SumLengths, NewBytes, Positions, InHeap, TermIn, SharedAddresses, SentBytes, NewOf;
    payload := new Payload();
    held := 0;
    var sent: map<nat, int> := map[];
    NothingSent(rows, heap);
    while held < Min(|rows|, limits.rows)
      invariant held <= Min(|rows|, limits.rows) && fresh(payload)
      invariant SpellsTerms(Positions(rows[..held]), payload.Packed()) && SentAs(sent, payload.Packed(), heap)
      invariant Room(payload.Packed(), 4 * held)
      invariant sent.Keys == SharedAddresses(Positions(rows), 4 * held)
      invariant held == 0 ==> payload.Packed() == Chunk([], [], [], [])
      invariant ByteCount(payload.Packed()) == SentBytes({}, Positions(rows[..held]))
      invariant |payload.text| <= limits.chunkBytes
      invariant ByteCount(payload.Packed()) > limits.chunkBytes ==> held == 1
    {
      var row := rows[held];
      if held > 0 && ByteCount(payload.Packed()) + NewBytes(row, sent.Keys, 4) > limits.chunkBytes {
        break;
      }
      RowPositions(rows, held, heap);
      SentRow(rows, held);
      sent := SendRow(payload, row, sent, limits, heap, Positions(rows[..held]));
      held := held + 1;
    }
  }

  lemma NothingSent(rows: seq<Quad<Term>>, heap: map<nat, Text>)
    ensures rows[..0] == [] && Positions<Term>([]) == [] && SharedAddresses(Positions(rows), 0) == {}
    ensures SpellsTerms([], Chunk([], [], [], [])) && SentAs(map[], Chunk([], [], [], []), heap) && Room(Chunk([], [], [], []), 0)
    ensures ByteCount(Chunk([], [], [], [])) == 0 && SentBytes({}, []) == 0
  {
  }

  /** One row more adds what its terms add to those of the rows before. */
  lemma SentRow(rows: seq<Quad<Term>>, n: nat)
    requires n < |rows|
    ensures var quad := [rows[n].s, rows[n].p, rows[n].o, rows[n].g];
            Positions(rows[..n + 1]) == Positions(rows[..n]) + quad ==>
              SentBytes({}, Positions(rows[..n + 1])) ==
                SentBytes({}, Positions(rows[..n])) + SentBytes(SharedAddresses(Positions(rows), 4 * n), quad)
  {
    hide SharedAddresses, SentBytes, Positions;
    var quad := [rows[n].s, rows[n].p, rows[n].o, rows[n].g];
    PositionsOfPrefix(rows, n);
    AddressesOfPrefix(Positions(rows), 4 * n);
    SentInTwo({}, Positions(rows[..n]), quad);
    assert {} + SharedAddresses(Positions(rows), 4 * n) == SharedAddresses(Positions(rows), 4 * n);
  }

  lemma QuadPositions(rows: seq<Quad<Term>>, n: nat, heap: map<nat, Text>)
    requires n < |rows| && InHeap(rows, heap)
    ensures Positions(rows)[4 * n..4 * n + 4] == [rows[n].s, rows[n].p, rows[n].o, rows[n].g]
    ensures forall c :: 0 <= c < 4 ==> TermIn(At(rows[n], c), heap)
  {
    hide TermIn;
    var all := Positions(rows);
    forall c | 0 <= c < 4
      ensures all[4 * n + c] == At(rows[n], c) && TermIn(At(rows[n], c), heap)
    {
      assert (4 * n + c) / 4 == n && (4 * n + c) % 4 == c;
      assert TermIn(all[4 * n + c], heap);
    }
    assert all[4 * n] == rows[n].s && all[4 * n + 1] == rows[n].p && all[4 * n + 2] == rows[n].o && all[4 * n + 3] == rows[n].g;
  }

  /** The positions of one row more. */
  lemma RowPositions(rows: seq<Quad<Term>>, n: nat, heap: map<nat, Text>)
    requires n < |rows| && InHeap(rows, heap)
    ensures var quad := [rows[n].s, rows[n].p, rows[n].o, rows[n].g];
            && Positions(rows[..n + 1]) == Positions(rows[..n]) + quad
            && SharedAddresses(Positions(rows), 4 * n + 4) == SharedAddresses(Positions(rows), 4 * n) + SharedAddresses(quad, 4)
    ensures forall c :: 0 <= c < 4 ==> TermIn(At(rows[n], c), heap)
  {
    hide *;
    QuadPositions(rows, n, heap);
    PositionsNext(rows, n);
    AddressesRow(Positions(rows), 4 * n, [rows[n].s, rows[n].p, rows[n].o, rows[n].g]);
  }

  lemma PositionsNext(rows: seq<Quad<Term>>, n: nat)
    requires n < |rows| && Positions(rows)[4 * n..4 * n + 4] == [rows[n].s, rows[n].p, rows[n].o, rows[n].g]
    ensures Positions(rows[..n + 1]) == Positions(rows[..n]) + [rows[n].s, rows[n].p, rows[n].o, rows[n].g]
  {
    hide Positions;
    PositionsOfPrefix(rows, n);
    PositionsOfPrefix(rows, n + 1);
    assert 4 * (n + 1) == 4 * n + 4;
    JoinPrefix(Positions(rows), 4 * n, 4 * n + 4);
  }

  lemma JoinPrefix<T>(s: seq<T>, p: nat, q: nat)
    requires p <= q <= |s|
    ensures s[..q] == s[..p] + s[p..q]
  {
  }

  lemma AddressesRow(terms: seq<Term>, p: nat, quad: seq<Term>)
    requires p + 4 <= |terms| && |quad| == 4 && terms[p..p + 4] == quad
    ensures SharedAddresses(terms, p + 4) == SharedAddresses(terms, p) + SharedAddresses(quad, 4)
  {
    hide SharedAddresses;
    SliceOfFour(terms, p, quad);
    AddressesFour(terms, p);
    AddressesFour(quad, 0);
    NoAddresses(quad);
  }

  lemma SliceOfFour<T>(s: seq<T>, p: nat, quad: seq<T>)
    requires p + 4 <= |s| && |quad| == 4 && s[p..p + 4] == quad
    ensures s[p] == quad[0] && s[p + 1] == quad[1] && s[p + 2] == quad[2] && s[p + 3] == quad[3]
  {
    var part := s[p..p + 4];
    assert part[0] == s[p] && part[1] == s[p + 1] && part[2] == s[p + 2] && part[3] == s[p + 3];
  }

  lemma NoAddresses(terms: seq<Term>)
    ensures SharedAddresses(terms, 0) == {}
  {
  }

  lemma AddressesFour(terms: seq<Term>, p: nat)
    requires p + 4 <= |terms|
    ensures SharedAddresses(terms, p + 4) ==
              SharedAddresses(terms, p)
              + (if terms[p].shared then {terms[p].address} else {}) + (if terms[p + 1].shared then {terms[p + 1].address} else {})
              + (if terms[p + 2].shared then {terms[p + 2].address} else {}) + (if terms[p + 3].shared then {terms[p + 3].address} else {})
  {
    AddressesNext(terms, p);
    AddressesNext(terms, p + 1);
    AddressesNext(terms, p + 2);
    AddressesNext(terms, p + 3);
  }
}
