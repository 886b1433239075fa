/** The gradient model: a list of colour keys (a colour at a time) kept in
    time order by insertion, evaluated by blending the two keys that
    bracket a time, and sampled into a strip of colours. */
module Gradients {
  import opened Colours

  /** The key list may be null in the source; `None` stands for that. */
  datatype Option<T> = None | Some(value: T)

  /** A key: a colour placed at a time. */
  datatype ColourKey = ColourKey(colour: Colour, time: real)

  /** `default(ColourKey)`: a fully transparent black key at time 0. */
  const DefaultKey: ColourKey := ColourKey(Clear, 0.0)

  /** Keys ascend (not strictly) by time. */
  predicate SortedByTime(ks: seq<ColourKey>)
  {
    forall i, j :: 0 <= i <= j < |ks| ==> ks[i].time <= ks[j].time
  }

  // ---------------------------------------------------------------------------
  // Evaluation

  /** The consecutive pair at `i`, `i + 1` encloses `t`. */
  predicate Encloses(ks: seq<ColourKey>, i: nat, t: real)
    requires i + 1 < |ks|
  {
    ks[i].time <= t <= ks[i + 1].time
  }

  /** The first consecutive pair at or after `from` that encloses `t`, if any. */
  function FirstBracketFrom(ks: seq<ColourKey>, t: real, from: nat): (r: Option<nat>)
    ensures r.Some? ==> from <= r.value && r.value + 1 < |ks| && Encloses(ks, r.value, t)
    ensures r.Some? ==> forall j :: from <= j < r.value ==> !Encloses(ks, j, t)
    ensures r.None? ==> forall j :: from <= j && j + 1 < |ks| ==> !Encloses(ks, j, t)
    decreases |ks| - from
  {
    if |ks| <= from + 1 then None
    else if Encloses(ks, from, t) then Some(from)
    else FirstBracketFrom(ks, t, from + 1)
  }

  /** A pair that encloses `t`, with no enclosing pair before it, is the one found. */
  lemma FirstBracketIs(ks: seq<ColourKey>, t: real, i: nat)
    requires i + 1 < |ks| && Encloses(ks, i, t)
    requires forall j :: 0 <= j < i ==> !Encloses(ks, j, t)
    ensures FirstBracketFrom(ks, t, 0) == Some(i)
  {
  }

  /** The pair at `i` encloses `t` and no earlier consecutive pair does. */
  predicate FirstEnclosing(ks: seq<ColourKey>, i: nat, t: real)
    requires i + 1 < |ks|
  {
    Encloses(ks, i, t) && forall j :: 0 <= j < i ==> !Encloses(ks, j, t)
  }

  /** No consecutive pair encloses `t`. */
  predicate NoneEncloses(ks: seq<ColourKey>, t: real)
  {
    forall j :: 0 <= j && j + 1 < |ks| ==> !Encloses(ks, j, t)
  }

  /** The pair of keys that `Evaluate` blends: the first enclosing consecutive
      pair, or the first and the last key when no pair encloses `t`. */
  function Bracket(ks: seq<ColourKey>, t: real): (r: (ColourKey, ColourKey))
    requires |ks| > 0
    ensures forall i :: 0 <= i && i + 1 < |ks| && FirstEnclosing(ks, i, t) ==> r == (ks[i], ks[i + 1])
    ensures NoneEncloses(ks, t) ==> r == (ks[0], ks[|ks| - 1])
  {
    match FirstBracketFrom(ks, t, 0)
    case Some(i) => (ks[i], ks[i + 1])
    case None => (ks[0], ks[|ks| - 1])
  }

  /** The colour of the gradient at time `t`: white for a null or empty key
      list, otherwise the clamped blend between the bracketing keys. */
  function EvaluateKeys(keys: Option<seq<ColourKey>>, t: real): (c: Colour)
    ensures keys.None? || keys.value == [] ==> c == White
    ensures keys.Some? && keys.value != [] ==>
              ChannelsBetween(Bracket(keys.value, t).0.colour, Bracket(keys.value, t).1.colour, c)
  {
    if keys.None? || |keys.value| == 0 then White
    else
      var (left, right) := Bracket(keys.value, t);
      Lerp(left.colour, right.colour, InverseLerp(left.time, right.time, t))
  }

  /** With a single key the gradient is that key's colour everywhere. */
  lemma EvaluateSingleKey(ks: seq<ColourKey>, t: real)
    requires |ks| == 1
    ensures EvaluateKeys(Some(ks), t) == ks[0].colour
  {
  }

  /** A pair enclosing `t` is found from `from` on whenever the key at `from`
      is at or before `t` and the last key is at or after it. */
  lemma {:induction false} BracketFoundFrom(ks: seq<ColourKey>, t: real, from: nat)
    requires from + 1 < |ks|
    requires ks[from].time <= t <= ks[|ks| - 1].time
    ensures FirstBracketFrom(ks, t, from).Some?
    decreases |ks| - from
  {
    if !Encloses(ks, from, t) && from + 2 < |ks| {
      BracketFoundFrom(ks, t, from + 1);
    }
  }

  /** When `t` lies between the first and the last key's times (sorted or
      not), the keys that are blended enclose `t`. */
  lemma BracketEnclosesInRange(ks: seq<ColourKey>, t: real)
    requires |ks| > 0 && ks[0].time <= t <= ks[|ks| - 1].time
    ensures Bracket(ks, t).0.time <= t <= Bracket(ks, t).1.time
  {
    if |ks| > 1 {
      BracketFoundFrom(ks, t, 0);
    }
  }

  /** On a sorted list, a time at or before the first key gives the first key's colour. */
  lemma EvaluateBeforeFirst(ks: seq<ColourKey>, t: real)
    requires |ks| > 0 && SortedByTime(ks)
    requires t <= ks[0].time
    ensures EvaluateKeys(Some(ks), t) == ks[0].colour
  {
    var (left, right) := Bracket(ks, t);
    if |ks| >= 2 && t == ks[0].time {
      FirstBracketIs(ks, t, 0);
      assert left == ks[0] && right == ks[1];
      InverseLerpEnds(left.time, right.time);
    } else if |ks| == 1 {
      assert left == ks[0] && right == ks[0];
    } else {
      assert forall j :: 0 <= j && j + 1 < |ks| ==> !Encloses(ks, j, t) by {
        forall j | 0 <= j && j + 1 < |ks| ensures !Encloses(ks, j, t) {
          assert ks[0].time <= ks[j].time;
        }
      }
      assert FirstBracketFrom(ks, t, 0).None?;
      assert left == ks[0] && right == ks[|ks| - 1];
      assert InverseLerp(left.time, right.time, t) == 0.0 by {
        if left.time != right.time {
          QuotientSign(t - left.time, right.time - left.time);
        }
      }
    }
  }

  /** On a sorted list, a time after the last key gives the last key's colour,
      unless every key sits at one time, when the blend factor is 0 and the
      first key's colour is returned. */
  lemma EvaluateAfterLast(ks: seq<ColourKey>, t: real)
    requires |ks| > 0 && SortedByTime(ks)
    requires ks[|ks| - 1].time < t
    ensures EvaluateKeys(Some(ks), t)
            == if ks[0].time == ks[|ks| - 1].time then ks[0].colour else ks[|ks| - 1].colour
  {
    var last := |ks| - 1;
    assert forall j :: 0 <= j && j + 1 < |ks| ==> !Encloses(ks, j, t) by {
      forall j | 0 <= j && j + 1 < |ks| ensures !Encloses(ks, j, t) {
        assert ks[j + 1].time <= ks[last].time;
      }
    }
    var (left, right) := Bracket(ks, t);
    assert left == ks[0] && right == ks[last];
    if left.time != right.time {
      var d := right.time - left.time;
      assert d > 0.0;
      QuotientAboveOne(t - left.time, d);
    }
  }

  /** On a sorted list, evaluating at a key's time gives that key's colour,
      provided it is the first key at that time. */
  lemma EvaluateAtKeyTime(ks: seq<ColourKey>, k: nat)
    requires k < |ks| && SortedByTime(ks)
    requires k == 0 || ks[k - 1].time < ks[k].time
    ensures EvaluateKeys(Some(ks), ks[k].time) == ks[k].colour
  {
    var t := ks[k].time;
    if k == 0 {
      EvaluateBeforeFirst(ks, t);
    } else {
      assert forall j :: 0 <= j < k - 1 ==> !Encloses(ks, j, t) by {
        forall j | 0 <= j < k - 1 ensures !Encloses(ks, j, t) {
          assert ks[j + 1].time <= ks[k - 1].time;
        }
      }
      FirstBracketIs(ks, t, k - 1);
      var left := ks[k - 1];
      InverseLerpEnds(left.time, t);
    }
  }

  // ---------------------------------------------------------------------------
  // Insertion

  /** Where `AddKey` places a key at time `t`: before the first key whose time
      is strictly greater, or at the end when there is none. */
  function InsertionPoint(ks: seq<ColourKey>, t: real): (p: nat)
    ensures p <= |ks|
    ensures forall j :: 0 <= j < p ==> ks[j].time <= t
    ensures p < |ks| ==> t < ks[p].time
  {
    if ks == [] then 0
    else if t < ks[0].time then 0
    else 1 + InsertionPoint(ks[1..], t)
  }

  /** The key list after `AddKey(k)`. It is one longer, holds `k` at the
      insertion point, gives back the old list when `k` is taken out again,
      and so loses, duplicates or reorders no old key. */
  function InsertKey(ks: seq<ColourKey>, k: ColourKey): (r: seq<ColourKey>)
    ensures |r| == |ks| + 1
    ensures r[InsertionPoint(ks, k.time)] == k
    ensures var p := InsertionPoint(ks, k.time);
            r[..p] + r[p + 1..] == ks
    ensures multiset(r) == multiset(ks) + multiset{k}
  {
    var p := InsertionPoint(ks, k.time);
    var r := ks[..p] + [k] + ks[p..];
    assert r[..p] == ks[..p];
    assert r[p + 1..] == ks[p..];
    assert ks[..p] + ks[p..] == ks;
    r
  }

  /** Insertion keeps a sorted list sorted. */
  lemma InsertKeySorted(ks: seq<ColourKey>, k: ColourKey)
    requires SortedByTime(ks)
    ensures SortedByTime(InsertKey(ks, k))
  {
    var p := InsertionPoint(ks, k.time);
    var r := InsertKey(ks, k);
    forall i, j | 0 <= i <= j < |r| ensures r[i].time <= r[j].time {
      if j < p {
        assert r[i] == ks[i] && r[j] == ks[j];
      } else if j == p {
        if i < p { assert r[i] == ks[i]; }
      } else if i > p {
        assert r[i] == ks[i - 1] && r[j] == ks[j - 1];
      } else if i == p {
        assert r[j] == ks[j - 1];
        assert ks[p].time <= ks[j - 1].time;
      } else {
        assert r[i] == ks[i] && r[j] == ks[j - 1];
      }
    }
  }

  /** On a sorted list the new key lands after exactly the keys whose time is
      less than or equal to its own, so keys at equal times keep insertion order. */
  lemma InsertionPointStable(ks: seq<ColourKey>, t: real)
    requires SortedByTime(ks)
    ensures forall j :: 0 <= j < |ks| ==> (ks[j].time <= t <==> j < InsertionPoint(ks, t))
  {
    var p := InsertionPoint(ks, t);
    forall j | 0 <= j < |ks| ensures ks[j].time <= t <==> j < p {
      if p <= j {
        assert ks[p].time <= ks[j].time;
      }
    }
  }

  // ---------------------------------------------------------------------------
  // Sampling

  /** The time at which pixel `i` of a strip `width` pixels wide is sampled. */
  function SampleTime(i: int, width: int): (t: real)
    requires width >= 2
    ensures 0 <= i < width ==> 0.0 <= t <= 1.0
    ensures i == 0 ==> t == 0.0
    ensures i == width - 1 ==> t == 1.0
  {
    FractionInUnit(i as real, (width - 1) as real);
    i as real / (width - 1) as real
  }

  // ---------------------------------------------------------------------------
  // The gradient object

  class CustomGradient {
    /** The key list; `None` models a null list. */
    var keys: Option<seq<ColourKey>>

    /** A new gradient starts with an empty key list. */
    constructor ()
      ensures keys == Some([])
    {
      keys := Some([]);
    }

    /** The key list is present and sorted by time. */
    predicate Sorted()
      reads this
    {
      keys.Some? && SortedByTime(keys.value)
    }

    /** Number of keys, or -1 for a null list. */
    function NumberOfKeys(): (n: int)
      reads this
      ensures n == -1 <==> keys.None?
      ensures keys.Some? ==> n == |keys.value|
    {
      if keys.None? then -1 else |keys.value|
    }

    /** The key at index `i`, or the default key for a null list (whatever
        `i` is) or an index past the end; indices below `NumberOfKeys()` give
        the stored key. */
    function GetKey(i: int): (k: ColourKey)
      requires keys.None? || i >= 0
      reads this
      ensures 0 <= i < NumberOfKeys() ==> keys.Some? && i < |keys.value| && k == keys.value[i]
      ensures keys.None? || NumberOfKeys() <= i ==> k == DefaultKey
    {
      if keys.None? || i >= |keys.value| then DefaultKey else keys.value[i]
    }

    /** Scans consecutive pairs for the first that encloses `time` and blends
        its two colours; falls back to the first and last key. */
    method Evaluate(time: real) returns (c: Colour)
      ensures keys.None? || keys.value == [] ==> c == White
      ensures c == EvaluateKeys(keys, time)
    {
      if keys.None? || |keys.value| == 0 {
        return White;
      }
      var ks := keys.value;
      var keyLeft := ks[0];
      var keyRight := ks[|ks| - 1];
      var i := 0;
      while i < |ks| - 1
        invariant 0 <= i <= |ks| - 1
        invariant forall j :: 0 <= j < i ==> !Encloses(ks, j, time)
        invariant keyLeft == ks[0] && keyRight == ks[|ks| - 1]
      {
        if ks[i].time <= time && ks[i + 1].time >= time {
          FirstBracketIs(ks, time, i);
          keyLeft := ks[i];
          keyRight := ks[i + 1];
          break;
        }
        i := i + 1;
      }
      var blendTime := InverseLerp(keyLeft.time, keyRight.time, time);
      c := Lerp(keyLeft.colour, keyRight.colour, blendTime);
    }

    /** Inserts a key before the first key with a strictly greater time, or
        appends it; a null list is left alone. */
    method AddKey(colour: Colour, time: real)
      modifies this
      ensures old(keys).None? ==> keys == old(keys)
      ensures old(keys).Some? ==> keys == Some(InsertKey(old(keys).value, ColourKey(colour, time)))
      ensures NumberOfKeys() == if old(keys).None? then -1 else old(NumberOfKeys()) + 1
      ensures old(Sorted()) ==> Sorted()
    {
      var newKey := ColourKey(colour, time);
      if keys.None? {
        return;
      }
      var ks := keys.value;
      if SortedByTime(ks) {
        InsertKeySorted(ks, newKey);
      }
      var i := 0;
      while i < |ks|
        invariant 0 <= i <= |ks|
        invariant forall j :: 0 <= j < i ==> ks[j].time <= time
        invariant keys == Some(ks)
      {
        if newKey.time < ks[i].time {
          assert InsertionPoint(ks, time) == i;
          keys := Some(ks[..i] + [newKey] + ks[i..]);
          return;
        }
        i := i + 1;
      }
      assert InsertionPoint(ks, time) == |ks|;
      assert ks[..|ks|] + [newKey] + ks[|ks|..] == ks + [newKey];
      keys := Some(ks + [newKey]);
    }

    /** Samples the gradient at `i / (width - 1)` for each pixel; a width of 1
        is refused with null. */
    method GetTexture(width: int) returns (colours: array?<Colour>)
      requires width >= 0
      ensures width == 1 <==> colours == null
      ensures colours != null ==> fresh(colours) && colours.Length == width
      ensures colours != null ==>
                forall i :: 0 <= i < width ==> colours[i] == EvaluateKeys(keys, SampleTime(i, width))
      ensures colours != null && width >= 2 ==>
                colours[0] == EvaluateKeys(keys, 0.0) && colours[width - 1] == EvaluateKeys(keys, 1.0)
    {
      if width == 1 {
        return null;
      }
      colours := new Colour[width];
      for i := 0 to width
        invariant forall j :: 0 <= j < i ==> colours[j] == EvaluateKeys(keys, SampleTime(j, width))
      {
        colours[i] := Evaluate(i as real / (width - 1) as real);
      }
    }
  }
}
