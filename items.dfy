/**
 * Item pickup in `Game.update`: the item list is scanned from the last entry to the first,
 * and every item on the player's cell is taken. A health item heals by 20 up to 100, any
 * other item adds 50 to the score.
 */
module Items {
  import opened Grid

  /** `'health'` (index.js) or `'hp'` (script.js) heals; `'score'` scores. */
  datatype ItemKind = Health | Points

  datatype Item = Item(x: int, y: int, kind: ItemKind)

  const MaxHealth := 100
  const HealthBonus := 20
  const ScoreBonus := 50

  predicate OnCell(it: Item, p: Pos) {
    it.x == p.x && it.y == p.y
  }

  /** How many of `items` lie on cell p. */
  function CountOn(items: seq<Item>, p: Pos): nat {
    if items == [] then 0
    else (if OnCell(items[0], p) then 1 else 0) + CountOn(items[1..], p)
  }

  /** How many items of one kind lie on cell p. */
  function CountKindOn(items: seq<Item>, p: Pos, kind: ItemKind): nat {
    if items == [] then 0
    else (if OnCell(items[0], p) && items[0].kind == kind then 1 else 0) + CountKindOn(items[1..], p, kind)
  }

  /** How the scan's summaries grow when it moves one item further toward the front. */
  lemma ScanStep(items: seq<Item>, i: int, p: Pos, health: int, score: int)
    requires 0 <= i < |items|
    ensures Remaining(items[i..], p) == if OnCell(items[i], p) then Remaining(items[i + 1..], p) else [items[i]] + Remaining(items[i + 1..], p)
    ensures CountOn(items[i..], p) == (if OnCell(items[i], p) then 1 else 0) + CountOn(items[i + 1..], p)
    ensures ScoreAfter(score, items[i..], p) == Scored(ScoreAfter(score, items[i + 1..], p), items[i], p)
    ensures HealthAfter(health, items[i..], p) == Heal(HealthAfter(health, items[i + 1..], p), items[i], p)
  {
    assert items[i..][0] == items[i] && items[i..][1..] == items[i + 1..];
    if OnCell(items[i], p) {
      assert [] + Remaining(items[i + 1..], p) == Remaining(items[i + 1..], p);
    }
  }

  /** A suffix holds no more items on p than the whole list. */
  lemma CountOnSuffix(items: seq<Item>, k: int, p: Pos)
    requires 0 <= k <= |items|
    ensures CountOn(items[k..], p) <= CountOn(items, p)
  {
    assert items == items[..k] + items[k..];
    CountOnSplit(items[..k], items[k..], p);
  }

  /**
   * The list shapes the backward scan goes through: with `orig[..i + 1]` still unscanned,
   * the items kept so far and the replacements appended so far, taking item i splices it
   * out and appends one more replacement, ...
   */
  lemma TakeAt(orig: seq<Item>, i: int, kept: seq<Item>, added: seq<Item>, next: Item)
    requires 0 <= i < |orig|
    ensures (orig[..i + 1] + kept + added)[i] == orig[i]
    ensures (orig[..i + 1] + kept + added)[..i] + (orig[..i + 1] + kept + added)[i + 1..] + [next] ==
            orig[..i] + kept + (added + [next])
  {
    var items := orig[..i + 1] + kept + added;
    assert items[..i] == orig[..i];
    assert items[i + 1..] == kept + added;
  }

  /** ... or, in a build that does not replace taken items, only splices it out, ... */
  lemma DropAt(orig: seq<Item>, i: int, kept: seq<Item>)
    requires 0 <= i < |orig|
    ensures (orig[..i + 1] + kept + [])[i] == orig[i]
    ensures (orig[..i + 1] + kept + [])[..i] + (orig[..i + 1] + kept + [])[i + 1..] == orig[..i] + kept + []
  {
    var items := orig[..i + 1] + kept + [];
    assert items[..i] == orig[..i];
    assert items[i + 1..] == kept;
  }

  /** ... and leaving item i in place moves it from the unscanned part to the kept part. */
  lemma KeepAt(orig: seq<Item>, i: int, kept: seq<Item>, added: seq<Item>)
    requires 0 <= i < |orig|
    ensures (orig[..i + 1] + kept + added)[i] == orig[i]
    ensures orig[..i + 1] + kept + added == orig[..i] + ([orig[i]] + kept) + added
  {
    assert orig[..i + 1] == orig[..i] + [orig[i]];
  }

  /** Before the scan nothing is kept or appended and the whole list is unscanned, ... */
  lemma ScanStart(orig: seq<Item>)
    ensures orig[|orig|..] == [] && orig[..|orig|] + [] + [] == orig
  {
  }

  /** ... and after it nothing is left unscanned. */
  lemma ScanDone(orig: seq<Item>, kept: seq<Item>, added: seq<Item>)
    ensures orig[..0] + kept + added == kept + added && orig[0..] == orig
  {
    assert orig[..0] == [];
  }

  /** One more replacement drawn from `spawns`. */
  lemma TakeOneMore(spawns: seq<Item>, n: int)
    requires 0 <= n < |spawns|
    ensures spawns[..n] + [spawns[n]] == spawns[..n + 1]
  {
  }

  /** Counting over a split list adds up the counts of the two parts. */
  lemma {:induction false} CountOnSplit(a: seq<Item>, b: seq<Item>, p: Pos)
    ensures CountOn(a + b, p) == CountOn(a, p) + CountOn(b, p)
  {
    if a != [] {
      assert (a + b)[0] == a[0] && (a + b)[1..] == a[1..] + b;
      CountOnSplit(a[1..], b, p);
    } else {
      assert a + b == b;
    }
  }

  /** The list after every item on p has been spliced out, the others in their order. */
  function Remaining(items: seq<Item>, p: Pos): (r: seq<Item>)
    ensures |r| == |items| - CountOn(items, p)
    ensures forall it :: it in r <==> it in items && !OnCell(it, p)
  {
    if items == [] then []
    else (if OnCell(items[0], p) then [] else [items[0]]) + Remaining(items[1..], p)
  }

  function Min(a: int, b: int): int {
    if a <= b then a else b
  }

  /** Health after taking one item, when it lies on p. */
  function Heal(health: int, it: Item, p: Pos): int {
    if OnCell(it, p) && it.kind == Health then Min(MaxHealth, health + HealthBonus) else health
  }

  /** Health after the scan over `items`, which visits the last item first. */
  function HealthAfter(health: int, items: seq<Item>, p: Pos): (r: int)
    ensures CountKindOn(items, p, Health) == 0 ==> r == health
    ensures CountKindOn(items, p, Health) > 0 ==> r <= MaxHealth
  {
    if items == [] then health
    else Heal(HealthAfter(health, items[1..], p), items[0], p)
  }

  /** Score after taking one item, when it lies on p. */
  function Scored(score: int, it: Item, p: Pos): int {
    if OnCell(it, p) && it.kind == Points then score + ScoreBonus else score
  }

  /** Score after the scan over `items`, which visits the last item first. */
  function ScoreAfter(score: int, items: seq<Item>, p: Pos): (r: int)
    ensures r >= score
    ensures CountKindOn(items, p, Points) == 0 ==> r == score
  {
    if items == [] then score
    else Scored(ScoreAfter(score, items[1..], p), items[0], p)
  }

  /** The scan adds 50 for every score item on the player's cell. */
  lemma {:induction false} ScoreAfterCounts(score: int, items: seq<Item>, p: Pos)
    ensures ScoreAfter(score, items, p) == score + ScoreBonus * CountKindOn(items, p, Points)
  {
    if items != [] {
      ScoreAfterCounts(score, items[1..], p);
    }
  }

  /**
   * The order in which items are taken does not matter for health: k health items on the
   * player's cell heal by 20 each, capped at 100 overall.
   */
  lemma {:induction false} HealthAfterCapped(health: int, items: seq<Item>, p: Pos)
    ensures HealthAfter(health, items, p) ==
            if CountKindOn(items, p, Health) == 0 then health
            else Min(MaxHealth, health + HealthBonus * CountKindOn(items, p, Health))
  {
    if items != [] {
      HealthAfterCapped(health, items[1..], p);
    }
  }

  /**
   * The pickup scan of `Game.update`: walking the list from the last item to the first,
   * every item on cell p is spliced out and applied to health or score; when `respawn` is
   * set, each taken item is followed by a replacement pushed at the end of the list, the
   * replacements being `spawns` in order.
   */
  method Pickup(items: seq<Item>, p: Pos, spawns: seq<Item>, respawn: bool, health: int, score: int)
    returns (left: seq<Item>, newHealth: int, newScore: int)
    requires respawn ==> CountOn(items, p) <= |spawns|
    ensures left == Remaining(items, p) + (if respawn then spawns[..CountOn(items, p)] else [])
    ensures newHealth == HealthAfter(health, items, p)
    ensures newScore == ScoreAfter(score, items, p)
    ensures respawn ==> |left| == |items|
    ensures !respawn ==> forall it | it in left :: !OnCell(it, p)
  {
    ghost var kept: seq<Item> := [];
    ghost var added: seq<Item> := [];
    var taken := 0;
    left, newHealth, newScore := items, health, score;
    ScanStart(items);
    var i := |items| - 1;
    while i >= 0
      invariant -1 <= i < |items|
      invariant taken == CountOn(items[i + 1..], p)
      invariant respawn ==> taken <= |spawns|
      invariant added == if respawn then spawns[..taken] else []
      invariant kept == Remaining(items[i + 1..], p)
      invariant left == items[..i + 1] + kept + added
      invariant newHealth == HealthAfter(health, items[i + 1..], p)
      invariant newScore == ScoreAfter(score, items[i + 1..], p)
    {
      ScanStep(items, i, p, health, score);
      if OnCell(items[i], p) {
        if respawn {
          CountOnSuffix(items, i, p);
          TakeAt(items, i, kept, added, spawns[taken]);
          TakeOneMore(spawns, taken);
          left := left[..i] + left[i + 1..] + [spawns[taken]];
          added := added + [spawns[taken]];
        } else {
          DropAt(items, i, kept);
          left := left[..i] + left[i + 1..];
        }
        taken := taken + 1;
        if items[i].kind == Health {
          newHealth := Min(MaxHealth, newHealth + HealthBonus);
        } else {
          newScore := newScore + ScoreBonus;
        }
      } else {
        KeepAt(items, i, kept, added);
        kept := [items[i]] + kept;
      }
      i := i - 1;
    }
    ScanDone(items, kept, added);
  }

  /** Starting at or below 100, the scan never lowers health and never raises it past 100. */
  lemma HealthAfterBounds(health: int, items: seq<Item>, p: Pos)
    requires health <= MaxHealth
    ensures health <= HealthAfter(health, items, p) <= MaxHealth
  {
    HealthAfterCapped(health, items, p);
  }
}
