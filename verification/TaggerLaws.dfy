/** What the counter and checksum tags of a message say, in terms of plain counts over its payloads. */
module TaggerLaws {
  import opened Common
  import opened Bits
  import opened Counting
  import Frames
  import Windows
  import opened Tagger
  import opened Checksums
  import opened ChecksumTags
  import ByteHistogram

  type Payload = seq<byte>

  /* ---- order and columns ------------------------------------------------------------------- */

  /** The values that occur, each where it occurs first, in ascending order of these places. */
  lemma {:induction false} OrderPlaces(ids: seq<nat>, allow: Option<set<nat>>) returns (at: seq<nat>)
    ensures Frames.StandsAt(Windows.Order(ids, allow), ids, at)
    ensures forall k :: 0 <= k < |ids| ==>
      (k in at <==> (allow.Some? ==> ids[k] in allow.value) && ids[k] !in ids[..k])
  {
    at := [];
    if ids != [] {
      var n := |ids| - 1;
      var init := OrderPlaces(ids[..n], allow);
      Frames.StandsSnoc(Windows.Order(ids[..n], allow), ids, init);
      at := if Windows.Allowed(allow, ids[n]) && ids[n] !in ids[..n] then init + [n] else init;
      forall k | 0 <= k < |ids|
        ensures k in at <==> (allow.Some? ==> ids[k] in allow.value) && ids[k] !in ids[..k]
      {
        Frames.InSnoc(init, n, k);
        if k < n {
          assert ids[..n][k] == ids[k] && ids[..n][..k] == ids[..k];
        }
      }
    }
  }

  /** A group holds what was filed under its identifier, in order of arrival. */
  lemma {:induction false} FiledPlaces<V>(ids: seq<nat>, vs: seq<V>, id: nat) returns (at: seq<nat>)
    requires |vs| == |ids|
    ensures Frames.StandsAt(Windows.Filed(ids, vs, id), vs, at)
    ensures forall k :: 0 <= k < |ids| ==> (k in at <==> ids[k] == id)
  {
    at := [];
    if ids != [] {
      var n := |ids| - 1;
      var init := FiledPlaces(ids[..n], vs[..n], id);
      Frames.StandsSnoc(Windows.Filed(ids[..n], vs[..n], id), vs, init);
      at := if ids[n] == id then init + [n] else init;
      forall k | 0 <= k < |ids| ensures k in at <==> ids[k] == id {
        Frames.InSnoc(init, n, k);
        if k < n {
          assert ids[..n][k] == ids[k];
        }
      }
    }
  }

  /** The payloads that carry a byte, in order, and the column read from them. */
  lemma {:induction false} CarrierPlaces(ps: seq<Payload>, i: nat, pick: byte -> nat) returns (at: seq<nat>)
    ensures Frames.StandsAt(Carriers(ps, i), ps, at)
    ensures forall k :: 0 <= k < |ps| ==> (k in at <==> i < |ps[k]|)
    ensures |Column(ps, i, pick)| == |Carriers(ps, i)|
    ensures forall k :: 0 <= k < |Column(ps, i, pick)| ==> Column(ps, i, pick)[k] == pick(Carriers(ps, i)[k][i])
  {
    at := [];
    if ps != [] {
      var n := |ps| - 1;
      var init := CarrierPlaces(ps[..n], i, pick);
      Frames.StandsSnoc(Carriers(ps[..n], i), ps, init);
      at := if i < |ps[n]| then init + [n] else init;
      forall k | 0 <= k < |ps| ensures k in at <==> i < |ps[k]| {
        Frames.InSnoc(init, n, k);
        if k < n {
          assert ps[..n][k] == ps[k];
        }
      }
    }
  }

  lemma {:induction false} TallyCounts(ds: seq<nat>, d: nat)
    ensures Tally(ds, d) == HowMany(ds, (x: nat) => x == d)
  {
    var p := (x: nat) => x == d;
    if ds == [] {
      HowManyNone(ds, p);
    } else {
      var n := |ds| - 1;
      TallyCounts(ds[..n], d);
      HowManySnoc(ds[..n], ds[n], p);
      assert ds == ds[..n] + [ds[n]];
    }
  }

  /* ---- counters -------------------------------------------------------------------------------- */

  /** From `a` to `b` the value went up by `d`, once around the modulus if it had to. */
  predicate GoesUpBy(a: nat, b: nat, d: nat, m: nat) {
    if a <= b then b == a + d else b + m == a + d
  }

  lemma WrappedGoesUp(a: nat, b: nat, m: nat)
    requires a < m && b < m
    ensures Wrapped(a, b, m) < m && GoesUpBy(a, b, Wrapped(a, b, m), m)
  {
    if a <= b {
      Remainder(b - a + m, m, 1, b - a);
    } else {
      Remainder(b - a + m, m, 0, b - a + m);
    }
  }

  /** How often a column goes up by `d`. */
  ghost function Advances(col: seq<nat>, d: nat, m: nat): nat {
    PairsWhere(col, (a: nat, b: nat) => GoesUpBy(a, b, d, m))
  }

  lemma WrappedIs(a: nat, b: nat, d: nat, m: nat)
    requires a < m && b < m
    ensures Wrapped(a, b, m) == d <==> GoesUpBy(a, b, d, m)
  {
    WrappedGoesUp(a, b, m);
  }

  /** Counting in the list of differences is counting pairs in the column. */
  lemma {:induction false} TallyPairs(col: seq<nat>, ds: seq<nat>, d: nat, p: (nat, nat) -> bool)
    requires |ds| == if col == [] then 0 else |col| - 1
    requires forall k :: 0 <= k < |ds| ==> (ds[k] == d <==> p(col[k], col[k + 1]))
    ensures Tally(ds, d) == PairsWhere(col, p)
  {
    if ds == [] {
      PairsNone(col, p);
    } else {
      var n := |ds|;
      TallyPairs(col[..n], ds[..n - 1], d, p);
      PairsSnoc(col[..n], col[n], p);
      assert col == col[..n] + [col[n]] && (ds[n - 1] == d <==> p(col[n - 1], col[n]));
    }
  }

  lemma TallyAdvances(col: seq<nat>, d: nat, m: nat)
    requires m > 0 && InRange(col, m)
    ensures Tally(Deltas(col, m), d) == Advances(col, d, m)
  {
    var p, ds := (a: nat, b: nat) => GoesUpBy(a, b, d, m), Deltas(col, m);
    forall k | 0 <= k < |ds| ensures ds[k] == d <==> p(col[k], col[k + 1]) {
      WrappedIs(col[k], col[k + 1], d, m);
    }
    TallyPairs(col, ds, d, p);
  }

  lemma {:induction false} FirstOccurrence(ds: seq<nat>, k: nat) returns (j: nat)
    requires k < |ds|
    ensures j <= k && ds[j] == ds[k] && ds[j] !in ds[..j]
  {
    j := k;
    if ds[k] in ds[..k] {
      var i :| 0 <= i < k && ds[i] == ds[k];
      j := FirstOccurrence(ds, i);
    }
  }

  /** The modal step comes before every step that is as frequent. */
  lemma {:induction false} ModalComesFirst(order: seq<nat>, ds: seq<nat>) returns (k: nat)
    requires Modal(order, ds).Some?
    ensures k < |order| && order[k] == Modal(order, ds).value
    ensures forall j :: 0 <= j < k && order[j] != 0 ==> Tally(ds, order[j]) < Tally(ds, order[k])
  {
    var n := |order| - 1;
    var init := order[..n];
    if Modal(order, ds) == Modal(init, ds) {
      k := ModalComesFirst(init, ds);
      assert forall j :: 0 <= j < n ==> init[j] == order[j];
    } else {
      k := n;
      forall j | 0 <= j < k && order[j] != 0 ensures Tally(ds, order[j]) < Tally(ds, order[k]) {
        assert init[j] == order[j];
        ModalAtLeast(init, ds, j);
      }
    }
  }

  lemma {:induction false} ModalAtLeast(order: seq<nat>, ds: seq<nat>, j: nat)
    requires j < |order| && order[j] != 0
    ensures Tally(ds, order[j]) <= if Modal(order, ds).Some? then Tally(ds, Modal(order, ds).value) else 0
  {
    if j < |order| - 1 {
      ModalAtLeast(order[..|order| - 1], ds, j);
    }
  }

  /** What occurs before the first occurrence of the modal step comes earlier in the order. */
  lemma ComesEarlier(ds: seq<nat>, order: seq<nat>, places: seq<nat>, i: nat, k: nat) returns (j: nat)
    requires Frames.StandsAt(order, ds, places) && i < |places| && k < places[i]
    requires forall p :: 0 <= p < |ds| && ds[p] !in ds[..p] ==> p in places
    ensures j < i && order[j] == ds[k]
  {
    var first := FirstOccurrence(ds, k);
    j :| 0 <= j < |places| && places[j] == first;
  }

  /** The place where the modal step first occurs; whatever differs from 0 before it is less frequent. */
  lemma ModalPlace(ds: seq<nat>, order: seq<nat>) returns (at: nat)
    requires order == Windows.Order(ds, None) && Modal(order, ds).Some?
    ensures at < |ds| && ds[at] == Modal(order, ds).value
    ensures forall k :: 0 <= k < at && ds[k] != 0 ==> Tally(ds, ds[k]) < Tally(ds, ds[at])
  {
    var places := OrderPlaces(ds, None);
    var i := ModalComesFirst(order, ds);
    at := places[i];
    forall k | 0 <= k < at && ds[k] != 0 ensures Tally(ds, ds[k]) < Tally(ds, ds[at]) {
      var j := ComesEarlier(ds, order, places, i, k);
    }
  }

  /** No step other than 0 is more frequent than the modal one. */
  lemma ModalIsMost(ds: seq<nat>, d: nat)
    requires Modal(Windows.Order(ds, None), ds).Some? && d != 0
    ensures Tally(ds, d) <= Tally(ds, Modal(Windows.Order(ds, None), ds).value)
  {
    TallyMember(ds, d);
    ModalOccurs(Windows.Order(ds, None), ds);
  }

  /** The step of a hit is the most frequent step of the column other than 0, and of those equally frequent
      the one taken first, at place `at`; the confidence is its share of the transitions. */
  lemma CounterTells(col: seq<nat>, m: nat, cfg: Config) returns (at: nat)
    requires m > 0 && InRange(col, m) && Detected(col, m, cfg).Some?
    ensures var hit, n := Detected(col, m, cfg).value, |col| - 1;
      && hit.step != 0 && n > 0 && hit.confidence == Advances(col, hit.step, m) as real / n as real
      && (forall d :: d != 0 ==> Advances(col, d, m) <= Advances(col, hit.step, m))
      && at < n && GoesUpBy(col[at], col[at + 1], hit.step, m)
      && (forall k, d :: 0 <= k < at && d != 0 && GoesUpBy(col[k], col[k + 1], d, m) ==>
            Advances(col, d, m) < Advances(col, hit.step, m))
  {
    var step, ds := Detected(col, m, cfg).value.step, Deltas(col, m);
    HitMeaning(col, m, cfg);
    TallyAdvances(col, step, m);
    forall d | d != 0 ensures Advances(col, d, m) <= Advances(col, step, m) {
      TallyAdvances(col, d, m);
      ModalIsMost(ds, d);
    }
    at := ModalPlace(ds, Windows.Order(ds, None));
    WrappedGoesUp(col[at], col[at + 1], m);
    forall k, d | 0 <= k < at && d != 0 && GoesUpBy(col[k], col[k + 1], d, m)
      ensures Advances(col, d, m) < Advances(col, step, m)
    {
      WrappedGoesUp(col[k], col[k + 1], m);
      assert ds[k] == d;
      TallyAdvances(col, d, m);
    }
  }

  /** A step reaches the threshold. */
  ghost predicate Reaches(col: seq<nat>, d: nat, m: nat, threshold: real) {
    d != 0 && |col| >= 2 && Advances(col, d, m) > 0
    && Advances(col, d, m) as real / (|col| - 1) as real >= threshold
  }

  /** There is a hit exactly with enough transitions and some step other than 0 that reaches the threshold. */
  lemma DetectedIff(col: seq<nat>, m: nat, cfg: Config)
    requires m > 0 && InRange(col, m)
    ensures Detected(col, m, cfg).Some? <==>
      |col| - 1 >= cfg.minTransitions && exists d :: Reaches(col, d, m, cfg.counterThreshold)
  {
    var ds := Deltas(col, m);
    if Detected(col, m, cfg).Some? {
      var step := Detected(col, m, cfg).value.step;
      var at := CounterTells(col, m, cfg);
      TallyAdvances(col, step, m);
      ModalOccurs(Windows.Order(ds, None), ds);
      assert Reaches(col, step, m, cfg.counterThreshold);
    }
    forall d | |col| - 1 >= cfg.minTransitions && Reaches(col, d, m, cfg.counterThreshold)
      ensures Detected(col, m, cfg).Some?
    {
      TallyAdvances(col, d, m);
      TallyMember(ds, d);
      var order := Windows.Order(ds, None);
      ModalOccurs(order, ds);
      Larger(Tally(ds, d), Tally(ds, Modal(order, ds).value), |ds|);
    }
  }

  lemma Larger(a: nat, b: nat, n: nat)
    requires a <= b && n > 0
    ensures a as real / n as real <= b as real / n as real
  {
  }

  /* ---- one byte ---------------------------------------------------------------------------------- */

  /** The part of a byte a reading looks at, and how many values that part has. */
  function PartOf(b: byte, nibble: Option<Nibble>): nat {
    match nibble
    case None => b
    case Some(Low) => b % 16
    case Some(High) => b / 16
  }

  function Values(nibble: Option<Nibble>): nat {
    if nibble.None? then 256 else 16
  }

  /** The column of that part, over the payloads that carry the byte. */
  function PartColumn(ps: seq<Payload>, i: nat, nibble: Option<Nibble>): seq<nat> {
    var fs := Carriers(ps, i);
    seq(|fs|, k requires 0 <= k < |fs| => PartOf(fs[k][i], nibble))
  }

  lemma ColumnIsPart(ps: seq<Payload>, i: nat, nibble: Option<Nibble>, pick: byte -> nat)
    requires forall b: byte :: pick(b) == PartOf(b, nibble)
    ensures Column(ps, i, pick) == PartColumn(ps, i, nibble)
  {
    var _ := CarrierPlaces(ps, i, pick);
  }

  /** `read` gives the reading of every part. */
  ghost predicate Reads(ps: seq<Payload>, i: nat, cfg: Config, read: Option<Nibble> -> Option<CounterHit>) {
    forall part :: read(part) == Detected(PartColumn(ps, i, part), Values(part), cfg)
  }

  lemma ReadingsAre(ps: seq<Payload>, i: nat, cfg: Config, read: Option<Nibble> -> Option<CounterHit>)
    requires Reads(ps, i, cfg, read)
    ensures Readings(ps, i, cfg) == [ReadingOf(read(None), None), ReadingOf(read(Some(Low)), Some(Low)),
                                     ReadingOf(read(Some(High)), Some(High))]
  {
    ColumnIsPart(ps, i, None, Whole);
    ColumnIsPart(ps, i, Some(Low), LowNibble);
    ColumnIsPart(ps, i, Some(High), HighNibble);
  }

  /** The rank of a reading: the whole byte, the low nibble, the high nibble. */
  function Rank(nibble: Option<Nibble>): nat {
    match nibble
    case None => 0
    case Some(Low) => 1
    case Some(High) => 2
  }

  /** One reading is preferred to another. */
  predicate Outranks(hit: CounterHit, nibble: Option<Nibble>, read: Option<CounterHit>, other: Option<Nibble>) {
    || read.None?
    || read.value.confidence < hit.confidence
    || (read.value.confidence == hit.confidence && Rank(nibble) <= Rank(other))
  }

  /** A byte is tagged as a counter, once, exactly when some part reads as one: by the most confident reading,
      and among equals by the whole byte before its low and its high nibble. */
  lemma CounterTagTells(ps: seq<Payload>, i: nat, cfg: Config, read: Option<Nibble> -> Option<CounterHit>)
    requires Reads(ps, i, cfg, read)
    ensures TagReads(CounterTags(ps, i, cfg), i, read)
  {
    ReadingsAre(ps, i, cfg, read);
    TagOfBest(ps, i, cfg, read);
  }

  ghost predicate TagReads(tags: seq<Tag>, i: nat, read: Option<Nibble> -> Option<CounterHit>) {
    && |tags| <= 1
    && (tags == [] ==> forall part :: read(part).None?)
    && (tags != [] ==>
          && tags[0].Counter? && tags[0].byteIndex == i
          && var hit := CounterHit(tags[0].step, tags[0].confidence);
          && read(tags[0].nibble) == Some(hit)
          && forall part :: Outranks(hit, tags[0].nibble, read(part), part))
  }

  lemma TagOfBest(ps: seq<Payload>, i: nat, cfg: Config, read: Option<Nibble> -> Option<CounterHit>)
    requires Readings(ps, i, cfg) == [ReadingOf(read(None), None), ReadingOf(read(Some(Low)), Some(Low)),
                                      ReadingOf(read(Some(High)), Some(High))]
    ensures TagReads(CounterTags(ps, i, cfg), i, read)
  {
    BestOf(read);
    var tags := CounterTags(ps, i, cfg);
    forall part ensures read(part) in [read(None), read(Some(Low)), read(Some(High))] {
      Parts(part);
    }
    if tags != [] {
      forall part ensures Outranks(CounterHit(tags[0].step, tags[0].confidence), tags[0].nibble, read(part), part) {
        Parts(part);
      }
    }
  }

  lemma Parts(part: Option<Nibble>)
    ensures part == None || part == Some(Low) || part == Some(High)
  {
    match part
    case None =>
    case Some(Low) =>
    case Some(High) =>
  }

  /** The best of three. */
  lemma BestOf(read: Option<Nibble> -> Option<CounterHit>)
    ensures var best := Best([ReadingOf(read(None), None), ReadingOf(read(Some(Low)), Some(Low)),
                              ReadingOf(read(Some(High)), Some(High))]);
      && (best.None? ==> read(None).None? && read(Some(Low)).None? && read(Some(High)).None?)
      && (best.Some? ==>
            && var Reading(hit, nibble) := best.value;
            && read(nibble) == Some(hit)
            && Outranks(hit, nibble, read(None), None) && Outranks(hit, nibble, read(Some(Low)), Some(Low))
            && Outranks(hit, nibble, read(Some(High)), Some(High)))
  {
    var a, b, c := ReadingOf(read(None), None), ReadingOf(read(Some(Low)), Some(Low)),
      ReadingOf(read(Some(High)), Some(High));
    var one, two, three := [a], [a, b], [a, b, c];
    assert one[..0] == [] && two[..1] == one && three[..2] == two;
    assert Best(one) == a;
    assert Best(two) == if a.Some? && (b.Some? ==> b.value.hit.confidence <= a.value.hit.confidence) then a else b;
  }
}

/** What the checksum tags of a message, and all its tags together, say. */
module ChecksumLaws {
  import opened Common
  import opened Bits
  import opened Counting
  import opened Tagger
  import opened Checksums
  import opened ChecksumTags
  import CoOccurrence

  type Payload = seq<byte>

  /* ---- schemes ------------------------------------------------------------------------------- */

  /** A bit of the exclusive or is the parity of that bit over the bytes. */
  lemma {:induction false} XorIsParity(p: Payload, n: nat, j: nat)
    requires n <= |p|
    ensures Bit(XorUpto(p, n), j) == HowMany(p[..n], (b: byte) => Bit(b, j) == 1) % 2
  {
    var set1 := (b: byte) => Bit(b, j) == 1;
    if n == 0 {
      HowManyNone(p[..n], set1);
      ShrZero(j);
    } else {
      XorIsParity(p, n - 1, j);
      HowManySnoc(p[..n - 1], p[n - 1], set1);
      assert p[..n] == p[..n - 1] + [p[n - 1]];
      BitOfXor(XorUpto(p, n - 1), p[n - 1], j);
    }
  }

  /** The payloads whose byte `i` is its own checksum. */
  ghost predicate Fits(p: Payload, i: nat, s: Scheme) {
    i < |p| && p[i] == ChecksumOf(s, p, i)
  }

  lemma {:induction false} MatchesCount(ps: seq<Payload>, i: nat, s: Scheme)
    requires Carry(ps, i)
    ensures Matches(ps, i, s) == HowMany(ps, (p: Payload) => Fits(p, i, s))
  {
    var fits := (p: Payload) => Fits(p, i, s);
    if ps == [] {
      HowManyNone(ps, fits);
    } else {
      var n := |ps| - 1;
      MatchesCount(ps[..n], i, s);
      HowManySnoc(ps[..n], ps[n], fits);
      assert ps == ps[..n] + [ps[n]];
    }
  }

  /** The schemes in the order of preference. */
  function Rank(s: Scheme): nat {
    match s
    case XorPrefix => 0
    case Crc8 => 1
    case XorAll => 2
    case SumAll => 3
  }

  /** The share of the payloads carrying byte `i` in which it is its own checksum. */
  ghost predicate Scores(fs: seq<Payload>, i: nat, s: Scheme, share: real) {
    |fs| > 0 && share == HowMany(fs, (p: Payload) => Fits(p, i, s)) as real / |fs| as real
  }

  ghost predicate IsBest(best: Option<Hit>, score: Scheme -> real, threshold: real) {
    if best.None? then forall s :: score(s) < threshold
    else
      && score(best.value.scheme) == best.value.confidence >= threshold
      && forall s :: || score(s) < best.value.confidence
                     || (score(s) == best.value.confidence && Rank(best.value.scheme) <= Rank(s))
  }

  /** Of the four schemes the one that scores highest, among equals the first in the order of preference. */
  lemma ChosenIsFirstBest(fs: seq<Payload>, i: nat, threshold: real, score: Scheme -> real)
    requires Carry(fs, i) && fs != [] && forall s :: score(s) == Score(fs, i, s)
    ensures IsBest(Chosen(fs, i, SCHEMES, threshold), score, threshold)
  {
    var one, two, three := [XorPrefix], [XorPrefix, Crc8], [XorPrefix, Crc8, XorAll];
    assert one[..0] == [] && two[..1] == one && three[..2] == two && SCHEMES[..3] == three;
    var first := Chosen(fs, i, one, threshold);
    assert Chosen(fs, i, [], threshold) == None;
    assert first == Better(None, XorPrefix, score(XorPrefix), threshold);
    var second := Chosen(fs, i, two, threshold);
    assert second == Better(first, Crc8, score(Crc8), threshold);
    var third := Chosen(fs, i, three, threshold);
    assert third == Better(second, XorAll, score(XorAll), threshold);
    assert Chosen(fs, i, SCHEMES, threshold) == Better(third, SumAll, score(SumAll), threshold);
  }

  /** A byte is tried when enough payloads carry it, one of them has another byte, and it varies. */
  ghost predicate Tried(fs: seq<Payload>, i: nat, minFrames: int) {
    && |fs| >= minFrames
    && (exists k :: 0 <= k < |fs| && |fs[k]| > 1)
    && (exists k, l :: 0 <= k < l < |fs| && i < |fs[k]| && i < |fs[l]| && fs[k][i] != fs[l][i])
  }

  /** A byte hits by the best scheme that reaches the threshold, and only when it is tried. */
  lemma HitTells(ps: seq<Payload>, i: nat, cfg: Config, score: Scheme -> real)
    requires forall s :: Carriers(ps, i) != [] ==> Scores(Carriers(ps, i), i, s, score(s))
    ensures if Tried(Carriers(ps, i), i, cfg.minFrames) then IsBest(ByteHit(ps, i, cfg), score, cfg.checksumThreshold)
            else ByteHit(ps, i, cfg) == None
  {
    var fs := Carriers(ps, i);
    TriedIsTestable(fs, i, cfg);
    if fs != [] {
      forall s ensures score(s) == Score(fs, i, s) {
        assert Scores(fs, i, s, score(s));
        MatchesCount(fs, i, s);
      }
      ChosenIsFirstBest(fs, i, cfg.checksumThreshold, score);
    }
  }

  lemma TriedIsTestable(fs: seq<Payload>, i: nat, cfg: Config)
    requires Carry(fs, i)
    ensures Testable(fs, i, cfg) <==> Tried(fs, i, cfg.minFrames)
  {
    if !AllSame(fs, i) {
      var k :| 0 <= k < |fs| && fs[k][i] != fs[0][i];
      assert 0 < k && i < |fs[0]| && i < |fs[k]|;
    }
  }

  /* ---- tags ------------------------------------------------------------------------------------- */

  /** The tag of a hit at byte `i`. */
  function TagOf(i: nat, hit: Option<Hit>): seq<Tag> {
    if hit.Some? then [Checksum(i, hit.value.scheme, hit.value.confidence)] else []
  }

  /** Each list holds what the one before it holds and what is added to it. */
  ghost predicate Grows(lists: nat -> seq<Tag>, added: nat -> seq<Tag>, k: nat, tag: Tag) {
    tag in lists(k + 1) <==> tag in lists(k) || tag in added(k)
  }

  lemma {:induction false} ListHolds(lists: nat -> seq<Tag>, added: nat -> seq<Tag>, n: nat, tag: Tag)
    requires lists(0) == [] && forall k: nat :: Grows(lists, added, k, tag)
    ensures tag in lists(n) <==> exists i: nat :: i < n && tag in added(i)
  {
    if n > 0 {
      ListHolds(lists, added, n - 1, tag);
      assert Grows(lists, added, n - 1, tag);
      assert n - 1 + 1 == n;
    }
  }

  lemma HitsNext(ps: seq<Payload>, n: nat, cfg: Config, tag: Tag)
    ensures tag in Hits(ps, n + 1, cfg) <==> tag in Hits(ps, n, cfg) || tag in TagOf(n, ByteHit(ps, n, cfg))
  {
  }

  /** The tags of the hits are in the list, and no others. */
  lemma HitsAre(ps: seq<Payload>, n: nat, cfg: Config, added: nat -> seq<Tag>, tag: Tag)
    requires forall i: nat :: added(i) == TagOf(i, ByteHit(ps, i, cfg))
    ensures tag in Hits(ps, n, cfg) <==> exists i: nat :: i < n && tag in added(i)
  {
    var lists := (k: nat) => Hits(ps, k, cfg);
    forall k: nat ensures Grows(lists, added, k, tag) {
      HitsNext(ps, k, cfg, tag);
    }
    ListHolds(lists, added, n, tag);
  }

  /** The checksum bytes do not depend on bytes after them, or on themselves. */
  predicate ReadsBefore(s: Scheme) {
    s == XorPrefix || s == Crc8
  }

  /** A hit is reported exactly when its scheme reads only the bytes before it, or no hit is of that kind
      and it is the highest. */
  lemma ChecksumTagTells(ps: seq<Payload>, width: nat, cfg: Config, tag: Tag)
    ensures var hits := Hits(ps, width, cfg);
      tag in ChecksumTagsOf(ps, width, cfg) <==>
        tag in hits && (ReadsBefore(tag.scheme) || forall t :: t in hits ==> Precedes(t, tag))
  {
    var hits := Hits(ps, width, cfg);
    ResolvedTells(hits, tag);
  }

  /** A symmetric hit at the byte of `tag` or before it. */
  ghost predicate Precedes(t: Tag, tag: Tag) {
    t.Checksum? && !ReadsBefore(t.scheme) && t.byteIndex <= tag.byteIndex
  }

  lemma ResolvedTells(hits: seq<Tag>, tag: Tag)
    requires (forall k :: 0 <= k < |hits| ==> hits[k].Checksum?) && Ascending(hits)
    ensures tag in Resolved(hits) <==>
      tag in hits && (ReadsBefore(tag.scheme) || forall t :: t in hits ==> Precedes(t, tag))
  {
    var asym := OnlyAsymmetric(hits);
    if asym != [] {
      assert asym[0] in asym && asym[0] in hits && !Precedes(asym[0], tag);
    } else if hits != [] {
      var last := hits[|hits| - 1];
      forall t | t in hits ensures Precedes(t, last) && (t == last || !Precedes(last, t)) {
        assert t !in asym;
      }
    }
  }

  /** The tags of one kind, in ascending order of their bytes. */
  ghost predicate Ascending(tags: seq<Tag>) {
    forall k, l :: 0 <= k < l < |tags| ==> tags[k].byteIndex < tags[l].byteIndex
  }

  lemma CounterTagAt(ps: seq<Payload>, i: nat, cfg: Config, t: Tag)
    ensures |CounterTags(ps, i, cfg)| <= 1
    ensures t in CounterTags(ps, i, cfg) ==> t.Counter? && t.byteIndex == i
  {
  }

  lemma CountersNext(ps: seq<Payload>, n: nat, cfg: Config, t: Tag)
    ensures t in CountersUpto(ps, n + 1, cfg) <==> t in CountersUpto(ps, n, cfg) || t in CounterTags(ps, n, cfg)
  {
  }

  lemma CountersHold(ps: seq<Payload>, n: nat, cfg: Config, added: nat -> seq<Tag>, t: Tag)
    requires forall i: nat :: added(i) == CounterTags(ps, i, cfg)
    ensures t in CountersUpto(ps, n, cfg) <==> exists i: nat :: i < n && t in added(i)
  {
    var lists := (k: nat) => CountersUpto(ps, k, cfg);
    forall k: nat ensures Grows(lists, added, k, t) {
      CountersNext(ps, k, cfg, t);
    }
    ListHolds(lists, added, n, t);
  }

  /** The counter tags of the first `n` bytes. */
  lemma CountersAre(ps: seq<Payload>, n: nat, cfg: Config, t: Tag)
    ensures t in CountersUpto(ps, n, cfg) <==> t.byteIndex < n && t in CounterTags(ps, t.byteIndex, cfg)
    ensures t in CountersUpto(ps, n, cfg) ==> t.Counter?
  {
    var added := (i: nat) => CounterTags(ps, i, cfg);
    CountersHold(ps, n, cfg, added, t);
    forall i: nat | t in added(i) ensures t.Counter? && t.byteIndex == i {
      CounterTagAt(ps, i, cfg, t);
    }
  }

  lemma {:induction false} CountersAscend(ps: seq<Payload>, n: nat, cfg: Config)
    ensures Ascending(CountersUpto(ps, n, cfg))
  {
    if n > 0 {
      CountersAscend(ps, n - 1, cfg);
      var init, last := CountersUpto(ps, n - 1, cfg), CounterTags(ps, n - 1, cfg);
      forall t | t in init ensures t.byteIndex < n - 1 {
        CountersAre(ps, n - 1, cfg, t);
      }
      forall t | t in last ensures t.byteIndex == n - 1 && |last| == 1 {
        CounterTagAt(ps, n - 1, cfg, t);
      }
      Follows(init, last);
    }
  }

  lemma Follows(a: seq<Tag>, b: seq<Tag>)
    requires Ascending(a) && |b| <= 1 && forall s, t :: s in a && t in b ==> s.byteIndex < t.byteIndex
    ensures Ascending(a + b)
  {
    forall k, l | 0 <= k < l < |a + b| ensures (a + b)[k].byteIndex < (a + b)[l].byteIndex {
      assert k < |a| ==> a[k] in a;
      assert l >= |a| ==> b[0] in b;
    }
  }

  lemma {:induction false} AsymmetricAscend(tags: seq<Tag>)
    requires (forall k :: 0 <= k < |tags| ==> tags[k].Checksum?) && Ascending(tags)
    ensures Ascending(OnlyAsymmetric(tags))
  {
    if tags != [] {
      var n := |tags| - 1;
      AsymmetricAscend(tags[..n]);
      var init := OnlyAsymmetric(tags[..n]);
      forall t | t in init ensures t.byteIndex < tags[n].byteIndex {
        assert t in tags[..n];
      }
      Follows(init, if Asymmetric(tags[n].scheme) then [tags[n]] else []);
    }
  }

  lemma ChecksumsAscend(ps: seq<Payload>, width: nat, cfg: Config)
    ensures var tags := ChecksumTagsOf(ps, width, cfg); Ascending(tags) && forall t :: t in tags ==> t.Checksum?
  {
    AsymmetricAscend(Hits(ps, width, cfg));
  }

  /** The frames looked at are the latest `maxFrames`, or all of them without a limit. */
  ghost predicate Latest(ps: seq<Payload>, group: seq<Payload>, maxFrames: nat) {
    && |ps| == (if maxFrames == 0 then |group| else Min(|group|, maxFrames))
    && ps == group[|group| - |ps|..]
  }

  /** All tags: the counters of the bytes that occur, then the checksums, either in ascending order. */
  lemma TagsTell(group: seq<Payload>, ps: seq<Payload>, maxFrames: nat, cfg: Config) returns (n: nat)
    requires Latest(ps, group, maxFrames)
    ensures var tags, width := TagsOf(Recent(group, maxFrames), cfg), CoOccurrence.MaxLength(ps);
      && n <= |tags| && Ascending(tags[..n]) && Ascending(tags[n..])
      && (forall t :: t in tags[..n] <==> t.byteIndex < width && t in CounterTags(ps, t.byteIndex, cfg))
      && (forall t :: t in tags[..n] ==> t.Counter?) && (forall t :: t in tags[n..] ==> t.Checksum?)
      && tags[n..] == ChecksumTagsOf(ps, width, cfg)
  {
    assert ps == Recent(group, maxFrames);
    var width := CoOccurrence.MaxLength(ps);
    forall t
      ensures t in CountersUpto(ps, width, cfg) <==> t.byteIndex < width && t in CounterTags(ps, t.byteIndex, cfg)
      ensures t in CountersUpto(ps, width, cfg) ==> t.Counter?
    {
      CountersAre(ps, width, cfg, t);
    }
    CountersAscend(ps, width, cfg);
    ChecksumsAscend(ps, width, cfg);
    n := |CountersUpto(ps, width, cfg)|;
    var tags := TagsOf(ps, cfg);
    assert tags[..n] == CountersUpto(ps, width, cfg) && tags[n..] == ChecksumTagsOf(ps, width, cfg);
  }
}
