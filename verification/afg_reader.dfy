/** `AFGUtils.read_graph`: reads an arc-flow graph from the tokens of an
    `.afg` file. The reader sees two token sequences: the whole file's tokens,
    where the ID table is found, and the tokens of the block between
    `#GRAPH_BEGIN#` and `#GRAPH_END#`, which hold the header and the arcs. */
module AfgReader {
  import opened Wrappers
  import opened PyInt
  import opened Cursor
  import opened Seqs
  import opened SortedInts

  /** An arc's label, decided once while reading: the loss sentinel, an
      external id from the ID table, or the entry of the caller's label table
      for that id. */
  datatype Label<T> = Loss(loss: int) | Id(id: int) | Ext(ext: T)

  type Arc<T> = (int, int, Label<T>)

  /** The keyworded fields of the graph block, in file order. */
  datatype Header = Header(nbTypes: int, start: int, terminals: seq<int>, loss: int, nv: int, na: int)

  /** What `read_graph` returns: `V, A, S, Ts, LOSS`. */
  datatype Graph<T> = Graph(vertices: seq<int>, arcs: seq<Arc<T>>, start: int, terminals: seq<int>, loss: int)

  /* ---------------------------------------------------------------- ID table */

  ghost predicate FirstAt(toks: seq<string>, t: string, k: nat) {
    k < |toks| && toks[k] == t && t !in toks[..k]
  }

  /** `toks.index(t)`, or `None` where it raises `ValueError`. */
  function FirstIndex(toks: seq<string>, t: string): (r: Option<nat>)
    ensures r.None? <==> t !in toks
    ensures r.Some? ==> FirstAt(toks, t, r.value)
  {
    if |toks| == 0 then None
    else if toks[0] == t then Some(0)
    else
      assert toks == [toks[0]] + toks[1..];
      match FirstIndex(toks[1..], t)
      case None => None
      case Some(i) =>
        assert toks[..i + 1] == [toks[0]] + toks[1..][..i];
        Some(i + 1)
  }

  /** Where the run of digit tokens starting at `from` ends; `None` when the
      run reaches the end of the list, where `lst[0]` raises `IndexError`. */
  function DigitRunEnd(toks: seq<string>, from: nat): (r: Option<nat>)
    requires from <= |toks|
    ensures r.Some? ==> from <= r.value < |toks| && !IsDigitToken(toks[r.value])
    ensures r.Some? ==> forall i :: from <= i < r.value ==> IsDigitToken(toks[i])
    ensures r.None? <==> forall i :: from <= i < |toks| ==> IsDigitToken(toks[i])
    decreases |toks| - from
  {
    if from == |toks| then None
    else if !IsDigitToken(toks[from]) then Some(from)
    else DigitRunEnd(toks, from + 1)
  }

  /** `ids` is the ID table of `toks`: the digit tokens that follow the first
      `IDS:` (at `k`) up to the first token that is not all digits. */
  ghost predicate IdTableAt(toks: seq<string>, k: nat, ids: seq<int>) {
    var j := k + 1 + |ids|;
    && FirstAt(toks, "IDS:", k)
    && j < |toks|
    && (forall i :: k < i < j ==> IsDigitToken(toks[i]))
    && !IsDigitToken(toks[j])
    && IntsAt(toks, k + 1, ids)
  }

  lemma DigitTokensConvert(toks: seq<string>, from: nat, to: nat)
    requires from <= to <= |toks|
    requires forall i :: from <= i < to ==> IsDigitToken(toks[i])
    ensures forall i :: from <= i < to ==> ParseInt(toks[i]).Some?
  {
    forall i | from <= i < to ensures ParseInt(toks[i]).Some? {
      ParseIntDigitToken(toks[i]);
    }
  }

  /** Lines 42-45 of the source: locate `IDS:` and collect the digit run. */
  function ReadIds(toks: seq<string>): (r: Result<seq<int>, ParseError>)
    ensures r.Success? ==> exists k :: IdTableAt(toks, k, r.value)
    ensures r.Success? ==> forall i :: 0 <= i < |r.value| ==> r.value[i] >= 0
    ensures r.Failure? ==>
              || "IDS:" !in toks
              || exists k: nat :: FirstAt(toks, "IDS:", k) && forall i :: k < i < |toks| ==> IsDigitToken(toks[i])
  {
    match FirstIndex(toks, "IDS:")
    case None => Failure(MissingIds)
    case Some(k) =>
      match DigitRunEnd(toks, k + 1)
      case None => Failure(EndOfInput)
      case Some(j) =>
        DigitTokensConvert(toks, k + 1, j);
        var run := ExpectInts(toks, k + 1, j - k - 1);
        var ids := run.value.0;
        IdTableFound(toks, k, j, ids);
        Success(ids)
  }

  /** The digit run from `k + 1` to `j` converts to an ID table of
      non-negative ids. */
  lemma IdTableFound(toks: seq<string>, k: nat, j: nat, ids: seq<int>)
    requires FirstAt(toks, "IDS:", k)
    requires k + 1 <= j < |toks| && !IsDigitToken(toks[j])
    requires forall i :: k + 1 <= i < j ==> IsDigitToken(toks[i])
    requires IntsAt(toks, k + 1, ids) && |ids| == j - k - 1
    ensures IdTableAt(toks, k, ids)
    ensures forall i :: 0 <= i < |ids| ==> ids[i] >= 0
  {
    forall i | 0 <= i < |ids| ensures ids[i] >= 0 {
      assert IsDigitToken(toks[k + 1 + i]);
      assert ParseInt(toks[k + 1 + i]) == Some(ids[i]);
    }
  }

  lemma FirstAtUnique(toks: seq<string>, t: string, k: nat, k': nat)
    requires FirstAt(toks, t, k) && FirstAt(toks, t, k')
    ensures k == k'
  {
  }

  /** The ID table is determined by the tokens: whatever satisfies the
      declarative description is what `ReadIds` returns, and conversely. */
  lemma ReadIdsSpec(toks: seq<string>, ids: seq<int>)
    ensures ReadIds(toks) == Success(ids) <==> exists k :: IdTableAt(toks, k, ids)
  {
    if k: nat :| IdTableAt(toks, k, ids) {
      assert toks[k] == "IDS:";
      var k' := FirstIndex(toks, "IDS:").value;
      FirstAtUnique(toks, "IDS:", k, k');
      var j := k + 1 + |ids|;
      var j' := DigitRunEnd(toks, k + 1).value;
      assert j == j';
      IntsAtUnique(toks, k + 1, ReadIds(toks).value, ids);
    }
  }

  /* ------------------------------------------------------------------ Header */

  function HeaderEnd(h: Header): nat {
    11 + |h.terminals|
  }

  /** `h` is the header of `block`: the six keywords at their fixed
      positions, each followed by its integer(s), `Ts:` by one integer per
      type (none when `NBTYPES` is not positive). */
  ghost predicate HeaderAt(block: seq<string>, h: Header) {
    && LeadAt(block, h.nbTypes, h.start, h.terminals)
    && TrailAt(block, 5 + |h.terminals|, h.loss, h.nv, h.na)
  }

  /** The fields up to the terminals: `NBTYPES`, `S` and `Ts`. */
  ghost predicate LeadAt(block: seq<string>, nbTypes: int, start: int, terminals: seq<int>) {
    && |terminals| == Max0(nbTypes)
    && 5 <= |block|
    && block[0] == "NBTYPES:" && ParseInt(block[1]) == Some(nbTypes)
    && block[2] == "S:" && ParseInt(block[3]) == Some(start)
    && block[4] == "Ts:" && IntsAt(block, 5, terminals)
  }

  /** The fields after the terminals, from position `p` on: `LOSS`, `NV`
      and `NA`. */
  ghost predicate TrailAt(block: seq<string>, p: nat, loss: int, nv: int, na: int) {
    && p + 6 <= |block|
    && block[p] == "LOSS:" && ParseInt(block[p + 1]) == Some(loss)
    && block[p + 2] == "NV:" && ParseInt(block[p + 3]) == Some(nv)
    && block[p + 4] == "NA:" && ParseInt(block[p + 5]) == Some(na)
  }

  /** Lines 52-64 of the source: `NBTYPES`, `S` and the `Ts` list. */
  function ParseLead(block: seq<string>): (r: Result<(int, int, seq<int>), ParseError>)
    ensures r.Success? ==> LeadAt(block, r.value.0, r.value.1, r.value.2)
  {
    var p0 :- ExpectKeyword(block, 0, "NBTYPES:");
    var nb :- ExpectInt(block, p0);
    var p1 :- ExpectKeyword(block, nb.1, "S:");
    var s :- ExpectInt(block, p1);
    var p2 :- ExpectKeyword(block, s.1, "Ts:");
    var ts :- ExpectInts(block, p2, nb.0);
    Success((nb.0, s.0, ts.0))
  }

  /** Lines 66-76 of the source, from position `p` on: `LOSS`, `NV` and
      `NA`. */
  function ParseTrail(block: seq<string>, p: nat): (r: Result<(int, int, int), ParseError>)
    ensures r.Success? ==> TrailAt(block, p, r.value.0, r.value.1, r.value.2)
  {
    var p3 :- ExpectKeyword(block, p, "LOSS:");
    var loss :- ExpectInt(block, p3);
    var p4 :- ExpectKeyword(block, loss.1, "NV:");
    var nv :- ExpectInt(block, p4);
    var p5 :- ExpectKeyword(block, nv.1, "NA:");
    var na :- ExpectInt(block, p5);
    Success((loss.0, nv.0, na.0))
  }

  /** Lines 52-76 of the source. */
  function ParseHeader(block: seq<string>): (r: Result<Header, ParseError>)
    ensures r.Success? ==> HeaderAt(block, r.value)
  {
    var lead :- ParseLead(block);
    var trail :- ParseTrail(block, 5 + |lead.2|);
    Success(Header(lead.0, lead.1, lead.2, trail.0, trail.1, trail.2))
  }

  /** The header is accepted exactly when every keyword and integer sits at
      its fixed position; a block with any keyword out of place or any
      non-integer where an integer belongs has no header and fails. */
  lemma ParseHeaderSpec(block: seq<string>, h: Header)
    ensures ParseHeader(block) == Success(h) <==> HeaderAt(block, h)
  {
    if HeaderAt(block, h) {
      ParseHeaderComplete(block, h);
    }
  }

  lemma ParseHeaderComplete(block: seq<string>, h: Header)
    requires HeaderAt(block, h)
    ensures ParseHeader(block) == Success(h)
  {
    ParseLeadComplete(block, h.nbTypes, h.start, h.terminals);
    ParseTrailComplete(block, 5 + |h.terminals|, h.loss, h.nv, h.na);
    ParseHeaderParts(block, (h.nbTypes, h.start, h.terminals), (h.loss, h.nv, h.na));
  }

  /** The header is its two runs of fields read one after the other. */
  lemma ParseHeaderParts(block: seq<string>, lead: (int, int, seq<int>), trail: (int, int, int))
    requires ParseLead(block) == Success(lead)
    requires ParseTrail(block, 5 + |lead.2|) == Success(trail)
    ensures ParseHeader(block) == Success(Header(lead.0, lead.1, lead.2, trail.0, trail.1, trail.2))
  {
    assert !ParseLead(block).IsFailure() && ParseLead(block).Extract() == lead;
    assert !ParseTrail(block, 5 + |lead.2|).IsFailure() && ParseTrail(block, 5 + |lead.2|).Extract() == trail;
  }

  lemma ParseLeadComplete(block: seq<string>, nbTypes: int, start: int, terminals: seq<int>)
    requires LeadAt(block, nbTypes, start, terminals)
    ensures ParseLead(block) == Success((nbTypes, start, terminals))
  {
    assert forall i :: 5 <= i < 5 + |terminals| ==> ParseInt(block[i]) == Some(terminals[i - 5]);
    var ts := ExpectInts(block, 5, nbTypes);
    IntsAtUnique(block, 5, ts.value.0, terminals);
  }

  lemma ParseTrailComplete(block: seq<string>, p: nat, loss: int, nv: int, na: int)
    requires TrailAt(block, p, loss, nv, na)
    ensures ParseTrail(block, p) == Success((loss, nv, na))
  {
  }

  /* -------------------------------------------------------------------- Arcs */

  /** Python's `ids[i]`: a negative index counts from the end. */
  function PyIndex(s: seq<int>, i: int): (r: Option<int>)
    ensures r.Some? <==> -|s| <= i < |s|
    ensures r.Some? ==> r.value == s[i % |s|]
  {
    if 0 <= i < |s| then Some(s[i])
    else if -|s| <= i < 0 then Some(s[|s| + i])
    else None
  }

  /** Lines 85-90 of the source: the label of an arc with raw label `raw`. */
  function Resolve<T>(raw: int, loss: int, ids: seq<int>, labels: Option<map<int, T>>): (r: Result<Label<T>, ParseError>)
    ensures raw == loss ==> r == Success(Loss(loss))
    ensures raw != loss ==>
              (r.Success? <==> PyIndex(ids, raw).Some? && (labels.Some? ==> PyIndex(ids, raw).value in labels.value))
    ensures raw != loss && r.Success? ==>
              r.value == (if labels.None? then Id(PyIndex(ids, raw).value) else Ext(labels.value[PyIndex(ids, raw).value]))
  {
    if raw == loss then Success(Loss(loss))
    else match PyIndex(ids, raw)
      case None => Failure(IndexOutOfRange(raw))
      case Some(id) =>
        match labels
        case None => Success(Id(id))
        case Some(m) => if id in m then Success(Ext(m[id])) else Failure(MissingLabel(id))
  }

  /** The `k`-th `(u, v, raw)` triple of the integer list. */
  function RawArc(ints: seq<int>, k: nat): (int, int, int)
    requires 3 * k + 3 <= |ints|
  {
    (ints[3 * k], ints[3 * k + 1], ints[3 * k + 2])
  }

  ghost predicate ArcOfRaw<T>(raw: (int, int, int), loss: int, ids: seq<int>, labels: Option<map<int, T>>, a: Arc<T>) {
    a.0 == raw.0 && a.1 == raw.1 && Resolve(raw.2, loss, ids, labels) == Success(a.2)
  }

  /** `arcs` lists one arc per triple of `ints`, in order. */
  ghost predicate ArcsOfInts<T>(ints: seq<int>, loss: int, ids: seq<int>, labels: Option<map<int, T>>, arcs: seq<Arc<T>>) {
    && |ints| == 3 * |arcs|
    && forall k :: 0 <= k < |arcs| ==> ArcOfRaw(RawArc(ints, k), loss, ids, labels, arcs[k])
  }

  /** Lines 79-90 of the source: one arc per triple, failing on a trailing
      incomplete triple or on a label that does not resolve. */
  function ParseArcs<T>(ints: seq<int>, loss: int, ids: seq<int>, labels: Option<map<int, T>>): (r: Result<seq<Arc<T>>, ParseError>)
    ensures r.Success? ==> ArcsOfInts(ints, loss, ids, labels, r.value)
    ensures (|ints| % 3 == 0 && forall k: nat :: 3 * k + 3 <= |ints| ==> Resolve(RawArc(ints, k).2, loss, ids, labels).Success?)
            ==> r.Success?
    decreases |ints|
  {
    if |ints| == 0 then Success([])
    else if |ints| < 3 then Failure(TruncatedArc(|ints|))
    else
      RawArcShift(ints);
      var lbl :- Resolve(ints[2], loss, ids, labels);
      var rest :- ParseArcs(ints[3..], loss, ids, labels);
      ArcsOfIntsCons(ints, loss, ids, labels, (ints[0], ints[1], lbl), rest);
      Success([(ints[0], ints[1], lbl)] + rest)
  }

  /** Dropping the first triple shifts the triples down by one. */
  lemma RawArcShift(ints: seq<int>)
    requires |ints| >= 3
    ensures RawArc(ints, 0) == (ints[0], ints[1], ints[2])
    ensures forall k: nat :: 3 * k + 3 <= |ints| - 3 ==> RawArc(ints[3..], k) == RawArc(ints, k + 1)
  {
  }

  /** One arc read from the first triple in front of the arcs of the rest. */
  lemma ArcsOfIntsCons<T>(ints: seq<int>, loss: int, ids: seq<int>, labels: Option<map<int, T>>, a: Arc<T>, rest: seq<Arc<T>>)
    requires |ints| >= 3
    requires ArcOfRaw(RawArc(ints, 0), loss, ids, labels, a)
    requires ArcsOfInts(ints[3..], loss, ids, labels, rest)
    ensures ArcsOfInts(ints, loss, ids, labels, [a] + rest)
  {
    var arcs := [a] + rest;
    forall k | 0 <= k < |arcs| ensures ArcOfRaw(RawArc(ints, k), loss, ids, labels, arcs[k]) {
      if k > 0 {
        assert RawArc(ints[3..], k - 1) == RawArc(ints, k);
      }
    }
  }

  lemma {:induction false} ParseArcsComplete<T>(ints: seq<int>, loss: int, ids: seq<int>, labels: Option<map<int, T>>, arcs: seq<Arc<T>>)
    requires ArcsOfInts(ints, loss, ids, labels, arcs)
    ensures ParseArcs(ints, loss, ids, labels) == Success(arcs)
    decreases |ints|
  {
    if |arcs| > 0 {
      var rest := arcs[1..];
      assert ArcOfRaw(RawArc(ints, 0), loss, ids, labels, arcs[0]);
      assert ArcsOfInts(ints[3..], loss, ids, labels, rest) by {
        forall k | 0 <= k < |rest| ensures ArcOfRaw(RawArc(ints[3..], k), loss, ids, labels, rest[k]) {
          assert RawArc(ints[3..], k) == RawArc(ints, k + 1);
          assert ArcOfRaw(RawArc(ints, k + 1), loss, ids, labels, arcs[k + 1]);
        }
      }
      ParseArcsComplete(ints[3..], loss, ids, labels, rest);
      assert arcs == [arcs[0]] + rest;
    }
  }

  /* ---------------------------------------------------------------- Vertices */

  /** Every vertex an arc of `arcs` starts or ends at. */
  ghost function Endpoints<T>(arcs: seq<Arc<T>>): set<int> {
    (set k | 0 <= k < |arcs| :: arcs[k].0) + (set k | 0 <= k < |arcs| :: arcs[k].1)
  }

  /** Lines 80-84 and 91 of the source: `sorted(V)` where `V` collects both
      endpoints of every arc. */
  function SortedVertices<T>(arcs: seq<Arc<T>>): (r: seq<int>)
    ensures StrictlyIncreasing(r)
    ensures Elems(r) == Endpoints(arcs)
  {
    if |arcs| == 0 then []
    else
      var init := arcs[..|arcs| - 1];
      var a := arcs[|arcs| - 1];
      assert Endpoints(arcs) == Endpoints(init) + {a.0, a.1} by {
        assert forall k :: 0 <= k < |init| ==> init[k] == arcs[k];
      }
      Insert(Insert(SortedVertices(init), a.0), a.1)
  }

  /** The arc at `p` of the tokens after the header: two endpoints and a raw
      label that resolves to the arc's label. */
  ghost predicate TokenArc<T>(rest: seq<string>, p: nat, loss: int, ids: seq<int>, labels: Option<map<int, T>>, a: Arc<T>) {
    && p + 3 <= |rest|
    && ParseInt(rest[p]) == Some(a.0)
    && ParseInt(rest[p + 1]) == Some(a.1)
    && ParseInt(rest[p + 2]).Some?
    && Resolve(ParseInt(rest[p + 2]).value, loss, ids, labels) == Success(a.2)
  }

  /** The tokens after the header are the arcs, three tokens per arc. */
  ghost predicate ArcsAt<T>(rest: seq<string>, loss: int, ids: seq<int>, labels: Option<map<int, T>>, arcs: seq<Arc<T>>) {
    && |rest| == 3 * |arcs|
    && forall k :: 0 <= k < |arcs| ==> TokenArc(rest, 3 * k, loss, ids, labels, arcs[k])
  }

  /** Lines 78-90 of the source on the tokens after the header: every token
      converts with `int`, then the integers are read as triples. */
  function ReadArcs<T>(rest: seq<string>, loss: int, ids: seq<int>, labels: Option<map<int, T>>): (r: Result<seq<Arc<T>>, ParseError>)
    ensures r.Success? ==> ArcsAt(rest, loss, ids, labels, r.value)
  {
    var ints :- ExpectInts(rest, 0, |rest|);
    var arcs :- ParseArcs(ints.0, loss, ids, labels);
    ArcsOfIntsAt(rest, ints.0, loss, ids, labels, arcs);
    Success(arcs)
  }

  /** The integers after the header, read as triples, describe the arcs
      exactly when the tokens themselves do (this lemma and the next). */
  lemma ArcsOfIntsAt<T>(rest: seq<string>, ints: seq<int>, loss: int, ids: seq<int>, labels: Option<map<int, T>>, arcs: seq<Arc<T>>)
    requires IntsAt(rest, 0, ints) && |ints| == |rest|
    requires ArcsOfInts(ints, loss, ids, labels, arcs)
    ensures ArcsAt(rest, loss, ids, labels, arcs)
  {
    forall k | 0 <= k < |arcs| ensures TokenArc(rest, 3 * k, loss, ids, labels, arcs[k]) {
      assert ArcOfRaw(RawArc(ints, k), loss, ids, labels, arcs[k]);
      // `0 + i` matches the index terms of `IntsAt(rest, 0, ints)`
      assert ParseInt(rest[0 + 3 * k]) == Some(ints[3 * k]);
      assert ParseInt(rest[0 + (3 * k + 1)]) == Some(ints[3 * k + 1]);
      assert ParseInt(rest[0 + (3 * k + 2)]) == Some(ints[3 * k + 2]);
    }
  }

  lemma ArcsAtInts<T>(rest: seq<string>, ints: seq<int>, loss: int, ids: seq<int>, labels: Option<map<int, T>>, arcs: seq<Arc<T>>)
    requires IntsAt(rest, 0, ints) && |ints| == |rest|
    requires ArcsAt(rest, loss, ids, labels, arcs)
    ensures ArcsOfInts(ints, loss, ids, labels, arcs)
  {
    forall k | 0 <= k < |arcs| ensures ArcOfRaw(RawArc(ints, k), loss, ids, labels, arcs[k]) {
      assert TokenArc(rest, 3 * k, loss, ids, labels, arcs[k]);
      // `0 + i` matches the index terms of `IntsAt(rest, 0, ints)`
      assert ParseInt(rest[0 + 3 * k]) == Some(ints[3 * k]);
      assert ParseInt(rest[0 + (3 * k + 1)]) == Some(ints[3 * k + 1]);
      assert ParseInt(rest[0 + (3 * k + 2)]) == Some(ints[3 * k + 2]);
    }
  }

  /** When the tokens after the header describe arcs, they all convert with
      `int`. */
  lemma ArcTokensConvert<T>(rest: seq<string>, loss: int, ids: seq<int>, labels: Option<map<int, T>>, arcs: seq<Arc<T>>)
    requires ArcsAt(rest, loss, ids, labels, arcs)
    ensures forall i :: 0 <= i < |rest| ==> ParseInt(rest[i]).Some?
  {
    forall i | 0 <= i < |rest| ensures ParseInt(rest[i]).Some? {
      var k := Triple(i, |arcs|);
      assert TokenArc(rest, 3 * k, loss, ids, labels, arcs[k]);
      assert i == 3 * k || i == 3 * k + 1 || i == 3 * k + 2;
    }
  }

  /** The triple a position `d < 3 * n` falls in. */
  function Triple(d: nat, n: nat): (k: nat)
    requires d < 3 * n
    ensures k < n && 3 * k <= d < 3 * k + 3
  {
    d / 3
  }

  /** The arcs read after the header are exactly those the tokens describe. */
  lemma ReadArcsSpec<T>(rest: seq<string>, loss: int, ids: seq<int>, labels: Option<map<int, T>>, arcs: seq<Arc<T>>)
    ensures ReadArcs(rest, loss, ids, labels) == Success(arcs) <==> ArcsAt(rest, loss, ids, labels, arcs)
  {
    if ArcsAt(rest, loss, ids, labels, arcs) {
      ArcTokensConvert(rest, loss, ids, labels, arcs);
      var ints := ExpectInts(rest, 0, |rest|).value.0;
      ArcsAtInts(rest, ints, loss, ids, labels, arcs);
      ParseArcsComplete(ints, loss, ids, labels, arcs);
    }
  }

  /* ------------------------------------------------------------------- Graph */

  ghost predicate BlockOf<T>(block: seq<string>, ids: seq<int>, labels: Option<map<int, T>>, g: Graph<T>) {
    exists h ::
      && HeaderAt(block, h)
      && h.start == g.start && h.terminals == g.terminals && h.loss == g.loss
      && ArcsAt(block[HeaderEnd(h)..], h.loss, ids, labels, g.arcs)
  }

  /** `g` is the graph the file describes: its ID table, header and arcs are
      at their fixed positions, and its vertex list is the ascending list
      of arc endpoints. */
  ghost predicate GraphOf<T>(fileToks: seq<string>, block: seq<string>, labels: Option<map<int, T>>, g: Graph<T>) {
    && (exists k, ids :: IdTableAt(fileToks, k, ids) && BlockOf(block, ids, labels, g))
    && StrictlyIncreasing(g.vertices)
    && Elems(g.vertices) == Endpoints(g.arcs)
  }

  /** The parts of `GraphOf`, each at its witness. */
  lemma GraphOfIntro<T>(fileToks: seq<string>, block: seq<string>, labels: Option<map<int, T>>, g: Graph<T>, k: nat, ids: seq<int>, h: Header)
    requires IdTableAt(fileToks, k, ids)
    requires HeaderAt(block, h) && h.start == g.start && h.terminals == g.terminals && h.loss == g.loss
    requires ArcsAt(block[HeaderEnd(h)..], h.loss, ids, labels, g.arcs)
    requires StrictlyIncreasing(g.vertices) && Elems(g.vertices) == Endpoints(g.arcs)
    ensures GraphOf(fileToks, block, labels, g)
  {
    assert BlockOf(block, ids, labels, g);
  }

  /** `AFGUtils.read_graph(afg_file, labels)`; `labels == None` is the
      source's `labels=None`. */
  function ReadGraph<T>(fileToks: seq<string>, block: seq<string>, labels: Option<map<int, T>>): (r: Result<Graph<T>, ParseError>)
    ensures r.Success? ==> StrictlyIncreasing(r.value.vertices) && Elems(r.value.vertices) == Endpoints(r.value.arcs)
    ensures r.Success? ==> |r.value.arcs| * 3 + |r.value.terminals| + 11 == |block|
  {
    var ids :- ReadIds(fileToks);
    var h :- ParseHeader(block);
    ReadBody(block[HeaderEnd(h)..], ids, labels, h)
  }

  /** Lines 78-92 of the source: the arcs after the header, and the graph
      they make with the header's fields. */
  function ReadBody<T>(rest: seq<string>, ids: seq<int>, labels: Option<map<int, T>>, h: Header): (r: Result<Graph<T>, ParseError>)
    ensures r.Success? ==> StrictlyIncreasing(r.value.vertices) && Elems(r.value.vertices) == Endpoints(r.value.arcs)
    ensures r.Success? ==> |r.value.arcs| * 3 == |rest| && r.value.terminals == h.terminals
  {
    var arcs :- ReadArcs(rest, h.loss, ids, labels);
    Success(Graph(SortedVertices(arcs), arcs, h.start, h.terminals, h.loss))
  }

  lemma ReadGraphSound<T>(fileToks: seq<string>, block: seq<string>, labels: Option<map<int, T>>)
    requires ReadGraph(fileToks, block, labels).Success?
    ensures GraphOf(fileToks, block, labels, ReadGraph(fileToks, block, labels).value)
  {
    var g := ReadGraph(fileToks, block, labels).value;
    var ids := ReadIds(fileToks).value;
    ReadIdsSpec(fileToks, ids);
    var k: nat :| IdTableAt(fileToks, k, ids);
    var h := ParseHeader(block).value;
    ReadArcsSpec(block[HeaderEnd(h)..], h.loss, ids, labels, g.arcs);
    assert BlockOf(block, ids, labels, g);
  }

  lemma ReadGraphComplete<T>(fileToks: seq<string>, block: seq<string>, labels: Option<map<int, T>>, g: Graph<T>)
    requires GraphOf(fileToks, block, labels, g)
    ensures ReadGraph(fileToks, block, labels) == Success(g)
  {
    var k, ids :| IdTableAt(fileToks, k, ids) && BlockOf(block, ids, labels, g);
    ReadIdsSpec(fileToks, ids);
    var h :| && HeaderAt(block, h)
             && h.start == g.start && h.terminals == g.terminals && h.loss == g.loss
             && ArcsAt(block[HeaderEnd(h)..], h.loss, ids, labels, g.arcs);
    ParseHeaderSpec(block, h);
    ReadArcsSpec(block[HeaderEnd(h)..], h.loss, ids, labels, g.arcs);
    SortedUnique(SortedVertices(g.arcs), g.vertices);
    ReadGraphParts(fileToks, block, labels, ids, h, g.arcs);
  }

  /** `read_graph` is its three stages read one after the other. */
  lemma ReadGraphParts<T>(fileToks: seq<string>, block: seq<string>, labels: Option<map<int, T>>, ids: seq<int>, h: Header, arcs: seq<Arc<T>>)
    requires ReadIds(fileToks) == Success(ids)
    requires ParseHeader(block) == Success(h) && HeaderEnd(h) <= |block|
    requires ReadArcs(block[HeaderEnd(h)..], h.loss, ids, labels) == Success(arcs)
    ensures ReadGraph(fileToks, block, labels) == Success(Graph(SortedVertices(arcs), arcs, h.start, h.terminals, h.loss))
  {
    assert !ReadIds(fileToks).IsFailure() && ReadIds(fileToks).Extract() == ids;
    assert !ParseHeader(block).IsFailure() && ParseHeader(block).Extract() == h;
  }

  /** `read_graph` returns `g` exactly when `g` is the graph the tokens
      describe; in particular every malformed input fails as a whole. */
  lemma ReadGraphSpec<T>(fileToks: seq<string>, block: seq<string>, labels: Option<map<int, T>>, g: Graph<T>)
    ensures ReadGraph(fileToks, block, labels) == Success(g) <==> GraphOf(fileToks, block, labels, g)
  {
    if ReadGraph(fileToks, block, labels) == Success(g) {
      ReadGraphSound(fileToks, block, labels);
    }
    if GraphOf(fileToks, block, labels, g) {
      ReadGraphComplete(fileToks, block, labels, g);
    }
  }

  /** `NV` and `NA` are read but nothing depends on them: replacing their
      values with any other integers leaves the result, success or failure,
      unchanged. */
  lemma CountsIgnored<T>(fileToks: seq<string>, block: seq<string>, labels: Option<map<int, T>>, h: Header, nv: string, na: string)
    requires HeaderAt(block, h)
    requires ParseInt(nv).Some? && ParseInt(na).Some?
    ensures ReadGraph(fileToks, block[8 + |h.terminals| := nv][10 + |h.terminals| := na], labels)
            == ReadGraph(fileToks, block, labels)
  {
    var k := |h.terminals|;
    var block' := block[8 + k := nv][10 + k := na];
    var h' := h.(nv := ParseInt(nv).value, na := ParseInt(na).value);
    CountsReplaced(block, block', h, nv, na);
    ParseHeaderComplete(block, h);
    ParseHeaderComplete(block', h');
    SameAfterHeader(fileToks, block, block', labels, h, h');
  }

  /** Two blocks whose headers agree on everything but the counts, followed
      by the same arc tokens, read the same. */
  lemma SameAfterHeader<T>(fileToks: seq<string>, block: seq<string>, block': seq<string>, labels: Option<map<int, T>>, h: Header, h': Header)
    requires ParseHeader(block) == Success(h) && ParseHeader(block') == Success(h')
    requires h.start == h'.start && h.terminals == h'.terminals && h.loss == h'.loss
    requires HeaderEnd(h) <= |block| && HeaderEnd(h) <= |block'|
    requires block[HeaderEnd(h)..] == block'[HeaderEnd(h)..]
    ensures ReadGraph(fileToks, block', labels) == ReadGraph(fileToks, block, labels)
  {
    assert HeaderEnd(h') == HeaderEnd(h);
    if ReadIds(fileToks).Success? {
      var ids := ReadIds(fileToks).value;
      assert ReadBody(block'[HeaderEnd(h')..], ids, labels, h') == ReadBody(block[HeaderEnd(h)..], ids, labels, h);
    }
    assert !ParseHeader(block).IsFailure() && ParseHeader(block).Extract() == h;
    assert !ParseHeader(block').IsFailure() && ParseHeader(block').Extract() == h';
  }

  /** Other integers in place of the `NV` and `NA` values give the header
      with those two counts replaced. */
  lemma CountsReplaced(block: seq<string>, block': seq<string>, h: Header, nv: string, na: string)
    requires HeaderAt(block, h)
    requires ParseInt(nv).Some? && ParseInt(na).Some?
    requires block' == block[8 + |h.terminals| := nv][10 + |h.terminals| := na]
    ensures HeaderAt(block', h.(nv := ParseInt(nv).value, na := ParseInt(na).value))
    ensures block[HeaderEnd(h)..] == block'[HeaderEnd(h)..]
  {
    var k := |h.terminals|;
    assert forall i :: 0 <= i < |block| && i != 8 + k && i != 10 + k ==> block'[i] == block[i];
    HeaderCountsAt(block, block', h, h.(nv := ParseInt(nv).value, na := ParseInt(na).value));
  }

  /** A header is found wherever its tokens are, whatever the `NV` and `NA`
      values. */
  lemma HeaderCountsAt(block: seq<string>, block': seq<string>, h: Header, h': Header)
    requires HeaderAt(block, h)
    requires |block'| == |block|
    requires forall i :: 0 <= i < |block| && i != 8 + |h.terminals| && i != 10 + |h.terminals| ==> block'[i] == block[i]
    requires h' == h.(nv := h'.nv, na := h'.na)
    requires ParseInt(block'[8 + |h.terminals|]) == Some(h'.nv) && ParseInt(block'[10 + |h.terminals|]) == Some(h'.na)
    ensures HeaderAt(block', h')
  {
    var k := |h.terminals|;
    assert IntsAt(block', 5, h.terminals) by {
      forall i | 0 <= i < k ensures ParseInt(block'[5 + i]) == Some(h.terminals[i]) {
        assert block'[5 + i] == block[5 + i];
      }
    }
  }

  /** A small file read end to end: the ID table `[5, 6, 7]` gives the first
      arc label 5, the raw label 9 equals `LOSS` (and is no index of the
      table), and `NV: 4` is not checked against the three vertices found. */
  lemma ReadExample(file: seq<string>, block: seq<string>)
    requires |file| > 4
    requires file[0] == "IDS:" && file[1] == "5" && file[2] == "6" && file[3] == "7" && file[4] == "#GRAPH_BEGIN#"
    requires |block| == 18
    requires block[0] == "NBTYPES:" && block[1] == "1" && block[2] == "S:" && block[3] == "0"
    requires block[4] == "Ts:" && block[5] == "3" && block[6] == "LOSS:" && block[7] == "9"
    requires block[8] == "NV:" && block[9] == "4" && block[10] == "NA:" && block[11] == "2"
    requires block[12] == "0" && block[13] == "1" && block[14] == "0"
    requires block[15] == "1" && block[16] == "3" && block[17] == "9"
    ensures ReadGraph<string>(file, block, None) == Success(Graph([0, 1, 3], [(0, 1, Id(5)), (1, 3, Loss(9))], 0, [3], 9))
  {
    var g: Graph<string> := Graph([0, 1, 3], [(0, 1, Id(5)), (1, 3, Loss(9))], 0, [3], 9);
    var h := Header(1, 0, [3], 9, 4, 2);
    ExampleIds(file);
    ExampleHeader(block, h);
    ExampleArcs(block[12..], g.arcs);
    ExampleVertices(g);
    assert HeaderEnd(h) == 12;
    GraphOfIntro(file, block, None, g, 0, [5, 6, 7], h);
    ReadGraphComplete(file, block, None, g);
  }

  lemma ExampleIds(file: seq<string>)
    requires |file| > 4
    requires file[0] == "IDS:" && file[1] == "5" && file[2] == "6" && file[3] == "7" && file[4] == "#GRAPH_BEGIN#"
    ensures IdTableAt(file, 0, [5, 6, 7])
  {
    ParseIntOneDigit(file[1]);
    ParseIntOneDigit(file[2]);
    ParseIntOneDigit(file[3]);
    assert file[4][0] == '#';
  }

  lemma ExampleHeader(block: seq<string>, h: Header)
    requires |block| >= 12
    requires block[0] == "NBTYPES:" && block[1] == "1" && block[2] == "S:" && block[3] == "0"
    requires block[4] == "Ts:" && block[5] == "3" && block[6] == "LOSS:" && block[7] == "9"
    requires block[8] == "NV:" && block[9] == "4" && block[10] == "NA:" && block[11] == "2"
    requires h == Header(1, 0, [3], 9, 4, 2)
    ensures HeaderAt(block, h)
  {
    ParseIntOneDigit(block[1]);
    ParseIntOneDigit(block[3]);
    ParseIntOneDigit(block[5]);
    ParseIntOneDigit(block[7]);
    ParseIntOneDigit(block[9]);
    ParseIntOneDigit(block[11]);
    assert IntsAt(block, 5, [3]);
  }

  lemma ExampleArcs(rest: seq<string>, arcs: seq<Arc<string>>)
    requires |rest| == 6
    requires rest[0] == "0" && rest[1] == "1" && rest[2] == "0"
    requires rest[3] == "1" && rest[4] == "3" && rest[5] == "9"
    requires arcs == [(0, 1, Id(5)), (1, 3, Loss(9))]
    ensures ArcsAt(rest, 9, [5, 6, 7], None, arcs)
  {
    ParseIntOneDigit(rest[0]);
    ParseIntOneDigit(rest[1]);
    ParseIntOneDigit(rest[2]);
    ParseIntOneDigit(rest[3]);
    ParseIntOneDigit(rest[4]);
    ParseIntOneDigit(rest[5]);
    assert TokenArc(rest, 0, 9, [5, 6, 7], None, arcs[0]);
    assert TokenArc(rest, 3, 9, [5, 6, 7], None, arcs[1]);
  }

  lemma ExampleVertices(g: Graph<string>)
    requires g == Graph([0, 1, 3], [(0, 1, Id(5)), (1, 3, Loss(9))], 0, [3], 9)
    ensures StrictlyIncreasing(g.vertices) && Elems(g.vertices) == Endpoints(g.arcs)
  {
    assert g.arcs[0].0 == 0 && g.arcs[0].1 == 1 && g.arcs[1].0 == 1 && g.arcs[1].1 == 3;
    assert Endpoints(g.arcs) == {0, 1, 3};
    assert Elems(g.vertices) == {0, 1, 3} by {
      assert g.vertices == [0, 1, 3];
    }
  }
}
