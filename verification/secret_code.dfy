/** Generation of the secret code: colours are drawn without replacement from
    the palette. The random choices are an input, one index per draw. */
module SecretCode {
  import opened Colors

  /** `pool` with the entry at `k` taken out, as `splice(k, 1)` leaves it. */
  function Spliced(pool: seq<ColorEntry>, k: nat): (r: seq<ColorEntry>)
    requires k < |pool|
    ensures |r| == |pool| - 1
    ensures forall j :: 0 <= j < |r| ==> r[j] == if j < k then pool[j] else pool[j + 1]
  {
    pool[..k] + pool[k + 1..]
  }

  /** `picks` can drive draws from a pool of `n` entries: the i-th index is
      below the size the pool has at the i-th draw. */
  predicate ValidPicks(n: nat, picks: seq<nat>) {
    forall i :: 0 <= i < |picks| ==> i + picks[i] < n
  }

  /** What is left of valid picks after the first draw is valid for the pool that draw leaves. */
  lemma ValidPicksTail(n: nat, picks: seq<nat>)
    requires ValidPicks(n, picks) && picks != []
    ensures n > 0 && ValidPicks(n - 1, picks[1..])
  {
    assert 0 < |picks| && picks[0] < n;
    var tail := picks[1..];
    forall i | 0 <= i < |tail| ensures i + tail[i] < n - 1 {
      assert tail[i] == picks[i + 1];
    }
  }

  /** The names drawn from `pool` when the i-th draw takes index `picks[i]` of
      what is left of the pool. */
  function Draw(pool: seq<ColorEntry>, picks: seq<nat>): seq<Color>
    requires ValidPicks(|pool|, picks)
    decreases |picks|
  {
    if picks == [] then []
    else
      var rest := Spliced(pool, picks[0]);
      ValidPicksTail(|pool|, picks);
      [pool[picks[0]].name] + Draw(rest, picks[1..])
  }

  /** Splicing an entry out keeps the names distinct, and every name left is
      one of the pool's other than the spliced one. */
  lemma SplicedDistinct(pool: seq<ColorEntry>, p: nat)
    requires p < |pool| && DistinctNames(pool)
    ensures DistinctNames(Spliced(pool, p))
    ensures forall c :: HasName(Spliced(pool, p), c) ==> HasName(pool, c) && c != pool[p].name
  {
    var rest := Spliced(pool, p);
    forall i, j | 0 <= i < j < |rest| ensures rest[i].name != rest[j].name {
      var i' := if i < p then i else i + 1;
      var j' := if j < p then j else j + 1;
      assert rest[i] == pool[i'] && rest[j] == pool[j'] && i' < j';
    }
    forall c | HasName(rest, c) ensures HasName(pool, c) && c != pool[p].name {
      var k :| 0 <= k < |rest| && rest[k].name == c;
      var k' := if k < p then k else k + 1;
      assert rest[k] == pool[k'] && k' != p;
    }
  }

  /** Drawing without replacement from a pool with distinct names gives one
      name per draw, no name twice, and only names of the pool. */
  lemma {:induction false} DrawDistinct(pool: seq<ColorEntry>, picks: seq<nat>)
    requires ValidPicks(|pool|, picks) && DistinctNames(pool)
    ensures |Draw(pool, picks)| == |picks|
    ensures Distinct(Draw(pool, picks))
    ensures forall i :: 0 <= i < |picks| ==> HasName(pool, Draw(pool, picks)[i])
    decreases |picks|
  {
    if picks != [] {
      var p := picks[0];
      var rest := Spliced(pool, p);
      ValidPicksTail(|pool|, picks);
      SplicedDistinct(pool, p);
      DrawDistinct(rest, picks[1..]);
      var tail := Draw(rest, picks[1..]);
      var d := Draw(pool, picks);
      assert d == [pool[p].name] + tail;
      // every later name comes from an entry other than the one drawn first
      assert forall i :: 0 <= i < |tail| ==> HasName(pool, tail[i]) && tail[i] != pool[p].name;
      forall i, j | 0 <= i < j < |d| ensures d[i] != d[j] {
        if i > 0 {
          assert d[i] == tail[i - 1] && d[j] == tail[j - 1];
        } else {
          assert d[j] == tail[j - 1];
        }
      }
      forall i | 0 <= i < |picks| ensures HasName(pool, d[i]) {
        if i > 0 {
          assert d[i] == tail[i - 1];
        }
      }
    }
  }

  /** Picks `CODE_LENGTH` colour names: each draw takes the entry at the
      chosen index of the colours still available and removes it from them. */
  method GenerateSecretCode(picks: seq<nat>) returns (code: seq<Color>)
    requires |picks| == CODE_LENGTH && ValidPicks(|COLORS|, picks)
    ensures code == Draw(COLORS, picks)
    ensures |code| == CODE_LENGTH && Distinct(code)
    ensures forall i :: 0 <= i < |code| ==> IsPaletteColor(code[i])
  {
    var availableColors := COLORS;
    code := [];
    for i := 0 to CODE_LENGTH
      invariant |availableColors| == |COLORS| - i
      invariant ValidPicks(|availableColors|, picks[i..])
      invariant code + Draw(availableColors, picks[i..]) == Draw(COLORS, picks)
    {
      var randomIndex := picks[i];
      var rest := Spliced(availableColors, randomIndex);
      assert picks[i..][1..] == picks[i + 1..];
      ValidPicksTail(|availableColors|, picks[i..]);
      code := code + [availableColors[randomIndex].name];
      availableColors := rest;
    }
    assert picks[CODE_LENGTH..] == [];
    PaletteNamesDistinct();
    DrawDistinct(COLORS, picks);
  }
}
