/** The word lookup table: levels of bloom filters whose set bits, counted in
    order, index a flat list of fingerprinted items. */
module ParseMeta {
  import opened Words
  import opened Ops

  /** What the hash of a seeded word contributes: the bit it sets and the
      fingerprint it stores. */
  datatype Hash = Hash(bit: (Byte, Word) -> Byte, fingerprint: (Byte, Word) -> nat)

  datatype Item = Item(index: nat, fingerprint: nat)

  type Bloom = s: seq<bool> | |s| == 0x100 witness seq(0x100, _ => false)

  datatype Level = Level(seed: Byte, bloom: Bloom)

  /** Set bits among the first `n`. */
  function Count(bloom: Bloom, n: nat): nat
    requires n <= 0x100
  {
    if n == 0 then 0 else Count(bloom, n - 1) + if bloom[n - 1] then 1 else 0
  }

  function CountAll(levels: seq<Level>): nat {
    if levels == [] then 0 else Count(levels[0].bloom, 0x100) + CountAll(levels[1..])
  }

  // ----- rank -----

  lemma {:induction false} CountMonotone(bloom: Bloom, m: nat, n: nat)
    requires m <= n <= 0x100
    ensures Count(bloom, m) <= Count(bloom, n)
    decreases n
  {
    if m < n {
      CountMonotone(bloom, m, n - 1);
    }
  }

  lemma RankBelow(bloom: Bloom, b: nat, c: nat)
    requires b < c <= 0x100 && bloom[b]
    ensures Count(bloom, b) < Count(bloom, c)
  {
    CountMonotone(bloom, b + 1, c);
  }

  lemma {:induction false} BitOfRank(bloom: Bloom, n: nat, r: nat) returns (b: nat)
    requires n <= 0x100 && r < Count(bloom, n)
    ensures b < n && bloom[b] && Count(bloom, b) == r
  {
    if bloom[n - 1] && Count(bloom, n - 1) == r {
      b := n - 1;
    } else {
      b := BitOfRank(bloom, n - 1, r);
    }
  }

  predicate HasRank(bloom: Bloom, r: nat) {
    exists b | 0 <= b < 0x100 :: bloom[b] && Count(bloom, b) == r
  }

  /** Counting the bits below maps the set bits one-to-one, in order, into the
      item slots of their level, and onto all of them. */
  lemma RankIsBijection(bloom: Bloom)
    ensures forall b | 0 <= b < 0x100 && bloom[b] :: Count(bloom, b) < Count(bloom, 0x100)
    ensures forall b, c | 0 <= b < c < 0x100 && bloom[b] && bloom[c] :: Count(bloom, b) < Count(bloom, c)
    ensures forall r | 0 <= r < Count(bloom, 0x100) :: HasRank(bloom, r)
  {
    forall b, c | 0 <= b < c <= 0x100 && bloom[b]
      ensures Count(bloom, b) < Count(bloom, c)
    {
      RankBelow(bloom, b, c);
    }
    forall r | 0 <= r < Count(bloom, 0x100)
      ensures HasRank(bloom, r)
    {
      var b := BitOfRank(bloom, 0x100, r);
    }
  }

  // ----- lookup -----

  /** The item a level offers a word, if its filter admits the word and the
      fingerprint there is the word's. */
  function Probe(h: Hash, level: Level, items: seq<Item>, word: Word): (r: Option<Item>)
    requires Count(level.bloom, 0x100) <= |items|
  {
    var bit := h.bit(level.seed, word);
    if !level.bloom[bit] then None
    else
      RankBelow(level.bloom, bit, 0x100);
      var item := items[Count(level.bloom, bit)];
      if item.fingerprint == h.fingerprint(level.seed, word) then Some(item) else None
  }

  /** The first level that offers the word an item names its index. */
  function FirstMatch(h: Hash, levels: seq<Level>, items: seq<Item>, word: Word): Option<nat>
    requires |items| == CountAll(levels)
  {
    if levels == [] then None
    else match Probe(h, levels[0], items, word)
         case Some(item) => Some(item.index)
         case None => FirstMatch(h, levels[1..], items[Count(levels[0].bloom, 0x100)..], word)
  }

  lemma RestShaped(levels: seq<Level>, items: seq<Item>, i: nat, offset: nat)
    requires i < |levels| && offset <= |items| && |items| - offset == CountAll(levels[i..])
    ensures var size := Count(levels[i].bloom, 0x100);
            && offset + size <= |items| && |items| - offset - size == CountAll(levels[i + 1..])
            && levels[i..][1..] == levels[i + 1..]
            && items[offset..][size..] == items[offset + size..]
  {
    assert levels[i..][0] == levels[i];
    assert levels[i..][1..] == levels[i + 1..];
  }

  lemma LookupStep(h: Hash, levels: seq<Level>, items: seq<Item>, word: Word, i: nat, offset: nat)
    requires i < |levels| && offset <= |items| && |items| - offset == CountAll(levels[i..])
    ensures var size := Count(levels[i].bloom, 0x100);
            var bit := h.bit(levels[i].seed, word);
            && offset + size <= |items| && |items| - offset - size == CountAll(levels[i + 1..])
            && (levels[i].bloom[bit] ==> Count(levels[i].bloom, bit) < size)
            && FirstMatch(h, levels[i..], items[offset..], word) ==
               if levels[i].bloom[bit]
                  && items[offset + Count(levels[i].bloom, bit)].fingerprint == h.fingerprint(levels[i].seed, word)
               then Some(items[offset + Count(levels[i].bloom, bit)].index)
               else FirstMatch(h, levels[i + 1..], items[offset + size..], word)
  {
    RestShaped(levels, items, i, offset);
    var bit := h.bit(levels[i].seed, word);
    if levels[i].bloom[bit] {
      RankBelow(levels[i].bloom, bit, 0x100);
    }
  }

  /** Probes level after level, moving past the bits of the levels before. */
  method LookupWord(h: Hash, levels: seq<Level>, items: seq<Item>, word: Word) returns (r: Option<nat>)
    requires |items| == CountAll(levels)
    ensures r == FirstMatch(h, levels, items, word)
  {
    hide FirstMatch, CountAll;
    var i: nat, offset: nat := 0, 0;
    assert items[0..] == items && levels[0..] == levels;
    while i < |levels|
      invariant i <= |levels| && offset <= |items| && |items| - offset == CountAll(levels[i..])
      invariant FirstMatch(h, levels, items, word) == FirstMatch(h, levels[i..], items[offset..], word)
    {
      LookupStep(h, levels, items, word, i, offset);
      var bit := h.bit(levels[i].seed, word);
      if levels[i].bloom[bit] {
        var pos := offset + Count(levels[i].bloom, bit);
        if items[pos].fingerprint == h.fingerprint(levels[i].seed, word) {
          return Some(items[pos].index);
        }
      }
      offset := offset + Count(levels[i].bloom, 0x100);
      i := i + 1;
    }
    EmptyLookup(h, levels[i..], items[offset..], word);
    r := None;
  }

  lemma EmptyLookup(h: Hash, levels: seq<Level>, items: seq<Item>, word: Word)
    requires levels == [] && |items| == CountAll(levels)
    ensures FirstMatch(h, levels, items, word) == None
  {}

  /** A hit names the index of an item that has the word's own fingerprint, under the
      seed of a level whose filter admits the word. */
  lemma {:induction false} HitHasFingerprint(h: Hash, levels: seq<Level>, items: seq<Item>, word: Word) returns (l: nat, pos: nat)
    requires |items| == CountAll(levels) && FirstMatch(h, levels, items, word).Some?
    ensures l < |levels| && pos < |items|
    ensures levels[l].bloom[h.bit(levels[l].seed, word)]
    ensures items[pos].fingerprint == h.fingerprint(levels[l].seed, word)
    ensures FirstMatch(h, levels, items, word) == Some(items[pos].index)
    decreases |levels|
  {
    var size, bit := Count(levels[0].bloom, 0x100), h.bit(levels[0].seed, word);
    if Probe(h, levels[0], items, word).Some? {
      RankBelow(levels[0].bloom, bit, 0x100);
      l, pos := 0, Count(levels[0].bloom, bit);
    } else {
      var l', pos' := HitHasFingerprint(h, levels[1..], items[size..], word);
      l, pos := l' + 1, size + pos';
    }
  }

  // ----- building -----

  /** A word and its place in the authored list. */
  datatype Authored = Authored(index: nat, word: Word)

  type Slots = s: seq<Option<Authored>> | |s| == 0x100 witness seq(0x100, _ => None)

  /** A level under construction: which authored word holds each bit. */
  datatype Filled = Filled(seed: Byte, slots: Slots)

  function BloomOf(f: Filled): Bloom {
    seq(0x100, b requires 0 <= b < 0x100 => f.slots[b].Some?)
  }

  /** Offers each pending word, in turn, the bit it hashes to. Words whose bit is
      taken are deferred to the next level. */
  function Fill(h: Hash, seed: Byte, pending: seq<Authored>): (r: (Filled, seq<Authored>))
    ensures r.0.seed == seed
  {
    if pending == [] then (Filled(seed, seq(0x100, _ => None)), [])
    else
      var n := |pending| - 1;
      var (filled, deferred) := Fill(h, seed, pending[..n]);
      var a := pending[n];
      var bit := h.bit(seed, a.word);
      if filled.slots[bit].None?
      then (filled.(slots := filled.slots[bit as int := Some(a)]), deferred)
      else (filled, deferred + [a])
  }

  /** One level per seed; returns the levels and the words none could place. */
  function Build(h: Hash, seeds: seq<Byte>, pending: seq<Authored>): (r: (seq<Filled>, seq<Authored>)) {
    if seeds == [] then ([], pending)
    else
      var (filled, deferred) := Fill(h, seeds[0], pending);
      var (rest, left) := Build(h, seeds[1..], deferred);
      ([filled] + rest, left)
  }

  /** The items of the first `n` bits of a level, in bit order. */
  function ItemsOf(h: Hash, f: Filled, n: nat): (items: seq<Item>)
    requires n <= 0x100
    ensures |items| == Count(BloomOf(f), n)
  {
    if n == 0 then []
    else
      ItemsOf(h, f, n - 1) +
      match f.slots[n - 1]
      case Some(a) => [Item(a.index, h.fingerprint(f.seed, a.word))]
      case None => []
  }

  function LevelsOf(filled: seq<Filled>): seq<Level> {
    if filled == [] then [] else [Level(filled[0].seed, BloomOf(filled[0]))] + LevelsOf(filled[1..])
  }

  function AllItems(h: Hash, filled: seq<Filled>): (items: seq<Item>)
    ensures |items| == CountAll(LevelsOf(filled))
  {
    if filled == [] then [] else ItemsOf(h, filled[0], 0x100) + AllItems(h, filled[1..])
  }

  /** The item of a set bit sits at its rank. */
  lemma {:induction false} ItemAtRank(h: Hash, f: Filled, bit: nat, n: nat)
    requires bit < n <= 0x100 && f.slots[bit].Some?
    ensures Count(BloomOf(f), bit) < Count(BloomOf(f), n)
    ensures ItemsOf(h, f, n)[Count(BloomOf(f), bit)]
         == Item(f.slots[bit].value.index, h.fingerprint(f.seed, f.slots[bit].value.word))
  {
    if bit < n - 1 {
      ItemAtRank(h, f, bit, n - 1);
    }
  }

  /** A filled level has a word at every pending word's bit; a pending word that
      is not the one there was deferred; nothing else was deferred. */
  lemma {:induction false} FillPlacesOrDefers(h: Hash, seed: Byte, pending: seq<Authored>, a: Authored)
    ensures a in pending ==>
              var slot := Fill(h, seed, pending).0.slots[h.bit(seed, a.word)];
              slot.Some? && (slot == Some(a) || a in Fill(h, seed, pending).1)
    ensures a in Fill(h, seed, pending).1 ==> a in pending
  {
    if pending == [] {
    } else {
      FillPlacesOrDefers(h, seed, pending[..|pending| - 1], a);
    }
  }

  /** The word in a slot was pending and hashes to that slot. */
  lemma {:induction false} SeatedAtItsBit(h: Hash, seed: Byte, pending: seq<Authored>, bit: Byte)
    ensures var slot := Fill(h, seed, pending).0.slots[bit];
            slot.Some? ==> slot.value in pending && h.bit(seed, slot.value.word) == bit
  {
    if pending == [] {
    } else {
      SeatedAtItsBit(h, seed, pending[..|pending| - 1], bit);
    }
  }

  predicate IsSeated(h: Hash, f: Filled, a: Authored) {
    f.slots[h.bit(f.seed, a.word)] == Some(a)
  }

  /** The level has another word at this word's bit, with the same fingerprint. */
  predicate Collides(h: Hash, f: Filled, a: Authored) {
    match f.slots[h.bit(f.seed, a.word)]
    case None => false
    case Some(c) => c != a && h.fingerprint(f.seed, c.word) == h.fingerprint(f.seed, a.word)
  }

  ghost predicate DistinctIndices(words: seq<Authored>) {
    forall a, c | a in words && c in words && a.index == c.index :: a == c
  }

  /** What the first level of a built table offers one of its words. */
  lemma ProbeBuilt(h: Hash, f: Filled, items: seq<Item>, a: Authored)
    requires ItemsOf(h, f, 0x100) <= items && f.slots[h.bit(f.seed, a.word)].Some?
    ensures var slot := f.slots[h.bit(f.seed, a.word)].value;
            Probe(h, Level(f.seed, BloomOf(f)), items, a.word) ==
            if IsSeated(h, f, a) || Collides(h, f, a)
            then Some(Item(slot.index, h.fingerprint(f.seed, slot.word))) else None
  {
    hide ItemsOf;
    ItemAtRank(h, f, h.bit(f.seed, a.word), 0x100);
  }

  /** Every word the seeds place has a level that holds it, and it resolves to
      its own index exactly when no earlier level has a colliding fingerprint at
      the word's bit. */
  lemma {:induction false} BuiltWordFound(h: Hash, seeds: seq<Byte>, pending: seq<Authored>, a: Authored)
    returns (home: nat)
    requires a in pending && DistinctIndices(pending) && Build(h, seeds, pending).1 == []
    ensures var filled := Build(h, seeds, pending).0;
            && home < |filled| && IsSeated(h, filled[home], a)
            && (FirstMatch(h, LevelsOf(filled), AllItems(h, filled), a.word) == Some(a.index)
                <==> forall k | 0 <= k < home :: !Collides(h, filled[k], a))
  {
    hide Fill, ItemsOf, IsSeated, Collides, Probe, Count;
    var filled := Build(h, seeds, pending).0;
    var (first, deferred) := Fill(h, seeds[0], pending);
    assert filled[0] == first && filled[1..] == Build(h, seeds[1..], deferred).0;
    var own := ItemsOf(h, first, 0x100);
    assert AllItems(h, filled)[|own|..] == AllItems(h, filled[1..]);
    FillPlacesOrDefers(h, seeds[0], pending, a);
    SeatedAtItsBit(h, seeds[0], pending, h.bit(seeds[0], a.word));
    ProbeBuilt(h, first, AllItems(h, filled), a);
    FirstSlot(h, first, a);
    if IsSeated(h, first, a) {
      home := 0;
    } else {
      forall c
        ensures c in deferred ==> c in pending
      {
        FillPlacesOrDefers(h, seeds[0], pending, c);
      }
      var rest := BuiltWordFound(h, seeds[1..], deferred, a);
      home := rest + 1;
      if forall k | 0 <= k < home :: !Collides(h, filled[k], a) {
        forall k | 0 <= k < rest
          ensures !Collides(h, filled[1..][k], a)
        {
          assert !Collides(h, filled[k + 1], a);
        }
      }
    }
  }

  lemma FirstSlot(h: Hash, f: Filled, a: Authored)
    ensures IsSeated(h, f, a) <==> f.slots[h.bit(f.seed, a.word)] == Some(a)
    ensures IsSeated(h, f, a) ==> !Collides(h, f, a)
  {}

  /** Two words that share a bit under the seed differ in fingerprint. */
  ghost predicate Distinguishable(h: Hash, seed: Byte, words: seq<Authored>) {
    forall a, c | a in words && c in words && a != c && h.bit(seed, a.word) == h.bit(seed, c.word) ::
      h.fingerprint(seed, a.word) != h.fingerprint(seed, c.word)
  }

  lemma {:induction false} NoCollision(h: Hash, seeds: seq<Byte>, pending: seq<Authored>, words: seq<Authored>, a: Authored)
    requires a in words && forall c | c in pending :: c in words
    requires forall i | 0 <= i < |seeds| :: Distinguishable(h, seeds[i], words)
    ensures var filled := Build(h, seeds, pending).0;
            forall k | 0 <= k < |filled| :: !Collides(h, filled[k], a)
  {
    if seeds == [] {
    } else {
      SeatedAtItsBit(h, seeds[0], pending, h.bit(seeds[0], a.word));
      forall c
        ensures c in Fill(h, seeds[0], pending).1 ==> c in pending
      {
        FillPlacesOrDefers(h, seeds[0], pending, c);
      }
      var deferred := Fill(h, seeds[0], pending).1;
      NoCollision(h, seeds[1..], deferred, words, a);
      var filled := Build(h, seeds, pending).0;
      forall k | 0 <= k < |filled|
        ensures !Collides(h, filled[k], a)
      {
        if k > 0 {
          assert filled[k] == Build(h, seeds[1..], deferred).0[k - 1];
        } else {
          assert filled[k] == Fill(h, seeds[0], pending).0;
          assert Distinguishable(h, seeds[0], words);
        }
      }
    }
  }

  function Numbered(words: seq<Word>): (r: seq<Authored>)
    ensures |r| == |words| && forall i | 0 <= i < |r| :: r[i] == Authored(i, words[i])
  {
    seq(|words|, i requires 0 <= i < |words| => Authored(i, words[i]))
  }

  /** Every authored word resolves to its own index, at whichever level bit
      collisions pushed it to, as long as the seeds place every word and no two
      words that meet at a bit also share a fingerprint. */
  lemma AuthoredWordsResolve(h: Hash, words: seq<Word>, seeds: seq<Byte>, i: nat)
    requires i < |words| && Build(h, seeds, Numbered(words)).1 == []
    requires forall s | 0 <= s < |seeds| :: Distinguishable(h, seeds[s], Numbered(words))
    ensures var filled := Build(h, seeds, Numbered(words)).0;
            FirstMatch(h, LevelsOf(filled), AllItems(h, filled), words[i]) == Some(i)
  {
    var pending := Numbered(words);
    assert pending[i] in pending;
    NoCollision(h, seeds, pending, pending, pending[i]);
    var home := BuiltWordFound(h, seeds, pending, pending[i]);
  }

  // ----- misses -----

  /** Where the items of level `l` start. */
  function ItemsBefore(levels: seq<Level>, l: nat): nat
    requires l <= |levels|
  {
    if l == 0 then 0 else Count(levels[0].bloom, 0x100) + ItemsBefore(levels[1..], l - 1)
  }

  /** Level `l` admits the word and the item at its rank has its fingerprint. */
  predicate Matches(h: Hash, levels: seq<Level>, items: seq<Item>, l: nat, word: Word)
    requires l < |levels|
  {
    var bit := h.bit(levels[l].seed, word);
    var pos := ItemsBefore(levels, l) + Count(levels[l].bloom, bit);
    && levels[l].bloom[bit] && pos < |items|
    && items[pos].fingerprint == h.fingerprint(levels[l].seed, word)
  }

  /** A lookup misses exactly when no level matches the word's fingerprint. */
  lemma {:induction false} MissIffUnmatched(h: Hash, levels: seq<Level>, items: seq<Item>, word: Word)
    requires |items| == CountAll(levels)
    ensures FirstMatch(h, levels, items, word) == None <==>
            forall l | 0 <= l < |levels| :: !Matches(h, levels, items, l, word)
    decreases |levels|
  {
    if levels == [] {
    } else {
      var size := Count(levels[0].bloom, 0x100);
      var bit := h.bit(levels[0].seed, word);
      if levels[0].bloom[bit] {
        RankBelow(levels[0].bloom, bit, 0x100);
      }
      assert Matches(h, levels, items, 0, word) <==> Probe(h, levels[0], items, word).Some?;
      forall l | 0 < l < |levels|
        ensures Matches(h, levels, items, l, word) == Matches(h, levels[1..], items[size..], l - 1, word)
      {
        assert levels[1..][l - 1] == levels[l];
      }
      MissIffUnmatched(h, levels[1..], items[size..], word);
      if forall l | 0 <= l < |levels| :: !Matches(h, levels, items, l, word) {
        forall l | 0 <= l < |levels| - 1
          ensures !Matches(h, levels[1..], items[size..], l, word)
        {
          assert !Matches(h, levels, items, l + 1, word);
        }
      }
    }
  }
}
