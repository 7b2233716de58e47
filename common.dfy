/**
 * scripts/common.js: the `Utils` class shared by the pages. Modelled here are its list
 * of regions, the navigation links the constructor builds from it, and `chunkify`,
 * which splits a list into chunks in one of three modes.
 */
module Common {
  /** `Utils.regions`, in the order the navigation shows them. */
  const Regions: seq<string> := ["Africa", "Asia", "Europe", "North America", "Oceania", "South America", "World"]

  /** One entry of the private link list: where it leads and what it shows. */
  datatype Link = Link(href: string, text: string)

  /** The links the constructor pushes, one per region, in region order. */
  function RegionLinks(regions: seq<string>): (links: seq<Link>)
    ensures |links| == |regions|
    ensures forall i :: 0 <= i < |regions| ==>
      links[i].href == "quiz.html?" + regions[i] && links[i].text == regions[i]
  {
    if regions == [] then []
    else RegionLinks(regions[..|regions| - 1]) + [Link("quiz.html?" + regions[|regions| - 1], regions[|regions| - 1])]
  }

  class Utils {
    const regions: seq<string> := Regions
    var links: seq<Link>

    /** The constructor: push `{href: "quiz.html?" + region, text: region}` for every region. */
    constructor ()
      ensures links == RegionLinks(regions)
    {
      links := [];
      new;
      var i := 0;
      while i < |regions|
        invariant 0 <= i <= |regions|
        invariant links == RegionLinks(regions[..i])
      {
        assert regions[..i + 1][..i] == regions[..i];
        links := links + [Link("quiz.html?" + regions[i], regions[i])];
        i := i + 1;
      }
      assert regions[..i] == regions;
    }

    /** `chunkify(n, balanced)` on the link list; the list itself is left as it was. */
    method Chunkify(n: int, balanced: bool) returns (out: seq<seq<Link>>)
      ensures Concat(out) == links
      ensures n < 2 ==> out == [links]
      ensures n >= 2 && |links| % n == 0 ==> |out| == (if |links| == 0 then 0 else n)
      ensures n >= 2 && |links| % n != 0 && balanced ==> |out| == (if n < |links| then n else |links|)
    {
      out := ChunkifyList(links, n, balanced);
    }
  }

  /** The chunks laid end to end. */
  function Concat<T>(chunks: seq<seq<T>>): (all: seq<T>)
    ensures |chunks| == 1 ==> all == chunks[0]
  {
    if chunks == [] then []
    else Concat(chunks[..|chunks| - 1]) + chunks[|chunks| - 1]
  }

  lemma ConcatPush<T>(chunks: seq<seq<T>>, c: seq<T>)
    ensures Concat(chunks + [c]) == Concat(chunks) + c
  {
    assert (chunks + [c])[..|chunks|] == chunks;
  }

  /** One more slice, taken right where the previous ones end, extends the covered prefix. */
  lemma ConcatSlice<T>(ll: seq<T>, out: seq<seq<T>>, i: nat, j: nat)
    requires i <= j <= |ll| && Concat(out) == ll[..i]
    ensures Concat(out + [ll[i..j]]) == ll[..j]
  {
    ConcatPush(out, ll[i..j]);
    assert ll[..j] == ll[..i] + ll[i..j];
  }

  /** `k` slices of length `s` laid end to end: `k * s`, written so that it stays linear. */
  function Times(k: nat, s: nat): nat {
    if k == 0 then 0 else Times(k - 1, s) + s
  }

  lemma {:induction false} TimesMul(k: nat, s: nat)
    ensures Times(k, s) == k * s
  {
    if k > 0 {
      TimesMul(k - 1, s);
      assert k * s == (k - 1) * s + s;
    }
  }

  lemma {:induction false} TimesAtLeast(k: nat, s: nat)
    requires s >= 1
    ensures Times(k, s) >= k
    ensures s == 1 ==> Times(k, s) == k
  {
    if k > 0 {
      TimesAtLeast(k - 1, s);
    }
  }

  /** The floor of `len / d` against its multiples: `len / d` slices fit, one more does not. */
  lemma DivBounds(len: nat, d: nat)
    requires d >= 1
    ensures Times(d, len / d) <= len < Times(d, len / d + 1)
    ensures len % d == 0 <==> Times(d, len / d) == len
  {
    var q := len / d;
    TimesMul(d, q);
    TimesMul(d, q + 1);
    assert len == q * d + len % d;
    assert d * (q + 1) == d * q + d;
  }

  /** `Math.ceil(a / b)` for a positive numerator and denominator: the fewest slices of `b` covering `a`. */
  function CeilDiv(a: nat, b: nat): (r: nat)
    requires a > 0 && b > 0
    ensures 1 <= r <= a && Times(b, r - 1) < a <= Times(b, r)
  {
    var r := (a + b - 1) / b;
    assert a + b - 1 == r * b + (a + b - 1) % b;
    TimesMul(b, r);
    TimesMul(b, r - 1);
    assert b * (r - 1) == b * r - b;
    MulMono(1, b, r - 1);
    r
  }

  /** The ceiling is the only such count of slices. */
  lemma CeilUnique(a: nat, b: nat, r: nat)
    requires a > 0 && b > 0 && r >= 1 && Times(b, r - 1) < a <= Times(b, r)
    ensures CeilDiv(a, b) == r
  {
    var c := CeilDiv(a, b);
    if c < r {
      TimesMono(b, c, r - 1);
    } else if c > r {
      TimesMono(b, r, c - 1);
    }
  }

  lemma TimesMono(k: nat, x: nat, y: nat)
    requires x <= y
    ensures Times(k, x) <= Times(k, y)
  {
    TimesMul(k, x);
    TimesMul(k, y);
    MulMono(x, y, k);
  }

  lemma MulMono(x: int, y: int, b: nat)
    requires x <= y
    ensures x * b <= y * b
  {
    assert y * b - x * b == (y - x) * b;
  }

  /**
   * One step of the balanced loop. With `m` slices of `q` fitting in `rem` and `m` slices
   * of `q + 1` not, the chunk taken is `q + 1` long while there is a remainder and `q` long
   * once there is none, and the rest keeps the same bounds against one chunk fewer.
   */
  lemma BalancedStep(q: nat, m: nat, rem: nat)
    requires m >= 1 && rem > 0 && Times(m, q) <= rem < Times(m, q + 1)
    ensures CeilDiv(rem, m) == (if rem == Times(m, q) then q else q + 1)
    ensures m - 1 >= 1 ==> Times(m - 1, q) <= rem - CeilDiv(rem, m) < Times(m - 1, q + 1)
    ensures m - 1 == 0 ==> rem == CeilDiv(rem, m)
    ensures rem == Times(m, q) ==> rem - CeilDiv(rem, m) == Times(m - 1, q)
  {
    if rem == Times(m, q) {
      assert q >= 1 by {
        if q == 0 { TimesMul(m, 0); }
      }
      TimesStep(m, q - 1);
      CeilUnique(rem, m, q);
      if m - 1 >= 1 {
        TimesStep(m - 1, q);
      }
    } else {
      CeilUnique(rem, m, q + 1);
    }
  }

  /** `size` in the unbalanced branch: `floor(len / (n - 1))`, one less when that divides `len`. */
  function UnbalancedSize(len: nat, n: int): (size: nat)
    requires n >= 2 && len % n != 0
    ensures Times(n - 1, size) < len
  {
    DivBounds(len, n - 1);
    var s := len / (n - 1);
    if s != 0 && len % s == 0 then
      TimesStep(n - 1, s - 1);
      s - 1
    else
      NotDivisible(len, n - 1, s);
      s
  }

  lemma TimesStep(k: nat, s: nat)
    requires k >= 1
    ensures Times(k, s + 1) == Times(k, s) + k
  {
    TimesMul(k, s);
    TimesMul(k, s + 1);
  }

  /** `k` slices of `s` with `len % s != 0`, or with no slice at all, do not make up `len`. */
  lemma NotDivisible(len: nat, k: nat, s: nat)
    requires len > 0 && (s == 0 || len % s != 0)
    ensures Times(k, s) != len
  {
    TimesMul(k, s);
    if s != 0 && k * s == len {
      var d, r := len / s, len % s;
      assert len == d * s + r;
      assert (k - d) * s == r by { assert (k - d) * s == k * s - d * s; }
      if k - d >= 1 {
        MulMono(1, k - d, s);
      } else if k - d <= -1 {
        MulMono(k - d, -1, s);
      }
    }
  }

  /**
   * chunkify(n, balanced) on a list `ll` in place of the private link list, for an
   * integer `n`. Fewer than two chunks asked for: the list as the one chunk (in the
   * script, the private array itself rather than a copy). Otherwise equal chunks when
   * `n` divides the length, else the balanced or the unbalanced split; these modes take
   * slices, so the chunks put back together are the list itself.
   */
  method ChunkifyList<T>(ll: seq<T>, n: int, balanced: bool) returns (out: seq<seq<T>>)
    ensures Concat(out) == ll
    ensures n < 2 ==> out == [ll]
    ensures n >= 2 && |ll| % n == 0 ==>
      && |out| == (if |ll| == 0 then 0 else n)
      && forall j :: 0 <= j < |out| ==> |out[j]| == |ll| / n
    ensures n >= 2 && |ll| % n != 0 && balanced ==>
      && |out| == (if n < |ll| then n else |ll|)
      && (forall j :: 0 <= j < |out| ==> |out[j]| >= 1)
      && (forall a, b :: 0 <= a < b < |out| ==> |out[b]| <= |out[a]| <= |out[b]| + 1)
    ensures n >= 2 && |ll| % n != 0 && !balanced ==>
      && var size := UnbalancedSize(|ll|, n);
      && |out| == (if size == 0 then 1 else n)
      && (forall j :: 0 <= j < |out| - 1 ==> |out[j]| == size)
      && |out[|out| - 1]| >= 1
  {
    if n < 2 {
      return [ll];
    }
    if |ll| % n == 0 {
      out := EqualChunks(ll, n);
    } else if balanced {
      out := BalancedChunks(ll, n);
      BalancedChunksShape(ll, n);
    } else {
      out := UnbalancedChunks(ll, n);
    }
  }

  /** The `len % n === 0` branch: slices of `len / n` until the list is used up. */
  method EqualChunks<T>(ll: seq<T>, n: int) returns (out: seq<seq<T>>)
    requires n >= 2 && |ll| % n == 0
    ensures Concat(out) == ll
    ensures |out| == (if |ll| == 0 then 0 else n)
    ensures forall j :: 0 <= j < |out| ==> |out[j]| == |ll| / n
  {
    var len := |ll|;
    var size := len / n;
    DivBounds(len, n);
    out := [];
    var i := 0;
    while i < len
      invariant 0 <= |out| <= n && 0 <= i <= len
      invariant len - i == Times(n - |out|, size)
      invariant len == 0 ==> out == []
      invariant Concat(out) == ll[..i]
      invariant forall j :: 0 <= j < |out| ==> |out[j]| == size
      decreases len - i
    {
      ConcatSlice(ll, out, i, i + size);
      out := out + [ll[i..i + size]];
      i := i + size;
    }
    assert ll[..i] == ll;
    if len > 0 {
      assert size > 0 by {
        if size == 0 {
          TimesMul(n, size);
        }
      }
    }
  }

  /**
   * The chunks the balanced loop takes from `rest` when `m` chunks are still to come:
   * `ceil(|rest| / m)` items, then the same with one chunk fewer.
   */
  function BalancedSplit<T>(rest: seq<T>, m: nat): seq<seq<T>>
    requires |rest| > 0 ==> m >= 1
    decreases |rest|
  {
    if |rest| == 0 then []
    else
      var size := CeilDiv(|rest|, m);
      assert m == 1 ==> size == |rest| by {
        if m == 1 { CeilUnique(|rest|, 1, |rest|); }
      }
      [rest[..size]] + BalancedSplit(rest[size..], m - 1)
  }

  lemma {:induction false} ConcatCons<T>(c: seq<T>, chunks: seq<seq<T>>)
    ensures Concat([c] + chunks) == c + Concat(chunks)
    decreases |chunks|
  {
    if chunks == [] {
      assert [c] + chunks == [c];
    } else {
      var init := chunks[..|chunks| - 1];
      assert ([c] + chunks)[..|chunks|] == [c] + init;
      ConcatCons(c, init);
    }
  }

  /** The balanced chunks laid end to end give back the list. */
  lemma {:induction false} BalancedSplitConcat<T>(rest: seq<T>, m: nat)
    requires |rest| > 0 ==> m >= 1
    ensures Concat(BalancedSplit(rest, m)) == rest
    decreases |rest|
  {
    if |rest| > 0 {
      var size := CeilDiv(|rest|, m);
      BalancedSplitConcat(rest[size..], m - 1);
      ConcatCons(rest[..size], BalancedSplit(rest[size..], m - 1));
      assert rest == rest[..size] + rest[size..];
    }
  }

  /** Every chunk is `q` or `q + 1` long and not empty, and the lengths never go up. */
  ghost predicate BalancedSizes<T>(out: seq<seq<T>>, q: nat) {
    && (forall j :: 0 <= j < |out| ==> (|out[j]| == q || |out[j]| == q + 1) && |out[j]| >= 1)
    && (forall a, b :: 0 <= a < b < |out| ==> |out[b]| <= |out[a]|)
  }

  /**
   * With `m` slices of `q` fitting in `rest` and `m` of `q + 1` not, the balanced split
   * is `m` chunks (or, when `q` is zero, one chunk per item) of `q` or `q + 1` items,
   * longest first; when `q` divides evenly every chunk is `q` long.
   */
  lemma {:induction false} BalancedSplitShape<T>(rest: seq<T>, m: nat, q: nat)
    requires m >= 1 ==> Times(m, q) <= |rest| < Times(m, q + 1)
    requires m == 0 ==> rest == []
    ensures var out := BalancedSplit(rest, m);
      && (q >= 1 ==> |out| == m)
      && (q == 0 ==> |out| == |rest|)
      && BalancedSizes(out, q)
      && (|rest| == Times(m, q) ==> forall j :: 0 <= j < |out| ==> |out[j]| == q)
    decreases |rest|
  {
    if |rest| == 0 {
      if q >= 1 && m >= 1 {
        TimesAtLeast(m, q);
      }
    } else {
      BalancedStep(q, m, |rest|);
      var size := CeilDiv(|rest|, m);
      var c, tail := rest[..size], rest[size..];
      BalancedSplitShape(tail, m - 1, q);
      var out := BalancedSplit(rest, m);
      var s := BalancedSplit(tail, m - 1);
      assert out == [c] + s;
      forall a, b | 0 <= a < b < |out| ensures |out[b]| <= |out[a]| {
        if a == 0 && |c| == q {
          assert |tail| == Times(m - 1, q);
          assert out[b] == s[b - 1];
        }
      }
    }
  }

  /** The balanced branch: each slice is `ceil((len - i) / n)` long, and `n` goes down by one. */
  method BalancedChunks<T>(ll: seq<T>, n: int) returns (out: seq<seq<T>>)
    requires n >= 2 && |ll| % n != 0
    ensures out == BalancedSplit(ll, n)
  {
    var len := |ll|;
    out := [];
    var i := 0;
    var m: nat := n;
    while i < len
      invariant 0 <= i <= len && (i < len ==> m >= 1)
      invariant out + BalancedSplit(ll[i..], m) == BalancedSplit(ll, n)
      decreases len - i
    {
      var size := CeilDiv(len - i, m);
      assert ll[i..][..size] == ll[i..i + size] && ll[i..][size..] == ll[i + size..];
      out := out + [ll[i..i + size]];
      i := i + size;
      m := m - 1;
    }
  }

  /** The chunk length every balanced chunk is close to: `floor(len / n)`. */
  lemma BalancedQuotient(len: nat, n: nat) returns (q: nat)
    requires n >= 1
    ensures Times(n, q) <= len < Times(n, q + 1)
  {
    q := len / n;
    DivBounds(len, n);
  }

  /** The balanced split of the whole list takes `min(n, len)` chunks, longest first, differing by at most one. */
  lemma BalancedChunksShape<T>(ll: seq<T>, n: nat)
    requires n >= 1
    ensures var out := BalancedSplit(ll, n);
      && Concat(out) == ll
      && |out| == (if n < |ll| then n else |ll|)
      && (forall j :: 0 <= j < |out| ==> |out[j]| >= 1)
      && (forall a, b :: 0 <= a < b < |out| ==> |out[b]| <= |out[a]| <= |out[b]| + 1)
  {
    var q := BalancedQuotient(|ll|, n);
    BalancedSplitConcat(ll, n);
    BalancedSplitShape(ll, n, q);
    if q >= 1 {
      TimesAtLeast(n, q);
    } else {
      TimesAtLeast(n, 1);
    }
  }

  /**
   * The unbalanced branch: `n - 1` slices of `size`, then the rest as one last slice.
   * When `size` is zero no slice is taken in the loop and the whole list is the last one.
   */
  method UnbalancedChunks<T>(ll: seq<T>, n: int) returns (out: seq<seq<T>>)
    requires n >= 2 && |ll| % n != 0
    ensures var size := UnbalancedSize(|ll|, n);
      && Concat(out) == ll
      && |out| == (if size == 0 then 1 else n)
      && (forall j :: 0 <= j < |out| - 1 ==> |out[j]| == size)
      && |out[|out| - 1]| >= 1
  {
    var len := |ll|;
    var m := n - 1;
    var size := UnbalancedSize(len, n);
    var bound := size * m;
    TimesMul(m, size);
    out := [];
    var i := 0;
    while i < bound
      invariant 0 <= |out| <= m && 0 <= i <= bound
      invariant bound - i == Times(m - |out|, size)
      invariant size == 0 ==> out == []
      invariant Concat(out) == ll[..i]
      invariant forall j :: 0 <= j < |out| ==> |out[j]| == size
      decreases bound - i
    {
      ConcatSlice(ll, out, i, i + size);
      out := out + [ll[i..i + size]];
      i := i + size;
    }
    ConcatPush(out, ll[bound..]);
    assert ll == ll[..i] + ll[bound..];
    out := out + [ll[bound..]];
  }
}
