/** The place of an element among those that a filter keeps. */
module Ranks {
  import opened Bytes

  /** How many of the first `j` are kept. */
  function Rank(kept: seq<bool>, j: nat): (r: nat)
    requires j <= |kept|
    ensures r <= j
  {
    if j == 0 then 0 else Rank(kept, j - 1) + if kept[j - 1] then 1 else 0
  }

  /** That is the size of a set. */
  lemma {:induction false} RankIsSize(kept: seq<bool>, j: nat)
    requires j <= |kept|
    ensures Rank(kept, j) == |set k | 0 <= k < j && kept[k]|
  {
    if j > 0 {
      RankIsSize(kept, j - 1);
      var before, now := (set k | 0 <= k < j - 1 && kept[k]), (set k | 0 <= k < j && kept[k]);
      if kept[j - 1] {
        assert now == before + {j - 1};
      } else {
        assert now == before;
      }
    }
  }

  lemma {:induction false} RankGrows(kept: seq<bool>, i: nat, j: nat)
    requires i <= j <= |kept|
    ensures Rank(kept, i) <= Rank(kept, j)
    ensures i < j && kept[i] ==> Rank(kept, i) < Rank(kept, j)
    decreases j
  {
    if i < j {
      RankGrows(kept, i, j - 1);
    }
  }

  lemma {:induction false} RankOfRest(kept: seq<bool>, kept': seq<bool>, j: nat)
    requires j < |kept| && |kept'| == |kept| - 1 && forall i :: 0 <= i < |kept'| ==> kept'[i] == kept[i + 1]
    ensures Rank(kept, j + 1) == (if kept[0] then 1 else 0) + Rank(kept', j)
  {
    if j > 0 {
      RankOfRest(kept, kept', j - 1);
    }
  }

  lemma {:induction false} Behind<T>(front: seq<T>, rest: seq<T>, r': nat, r: nat)
    requires r' < |rest| && r == |front| + r'
    ensures r < |front + rest| && (front + rest)[r] == rest[r']
  {
  }

  /** The values that are there, from position `i` on, in order. */
  function KeptFrom<T>(options: seq<Option<T>>, i: nat): seq<T>
    requires i <= |options|
    decreases |options| - i
  {
    if i == |options| then []
    else (if options[i].Some? then [options[i].value] else []) + KeptFrom(options, i + 1)
  }

  /** `kept` says which values are there. */
  ghost predicate Marks<T>(options: seq<Option<T>>, kept: seq<bool>) {
    |kept| == |options| && forall i :: 0 <= i < |options| ==> kept[i] == options[i].Some?
  }

  /** What a single value contributes. */
  function Single<T>(option: Option<T>): seq<T> {
    if option.Some? then [option.value] else []
  }

  lemma {:induction false} KeptUnfold<T>(options: seq<Option<T>>, i: nat, next: nat, rest: seq<T>)
    requires i < |options| && next == i + 1 && rest == KeptFrom(options, next)
    ensures KeptFrom(options, i) == Single(options[i]) + rest
  {
  }

  lemma {:induction false} RankStep(kept: seq<bool>, i: nat, next: nat)
    requires i < |kept| && next == i + 1
    ensures Rank(kept, next) == Rank(kept, i) + if kept[i] then 1 else 0
  {
  }

  lemma {:induction false} KeptCount<T>(options: seq<Option<T>>, kept: seq<bool>, i: nat)
    requires Marks(options, kept) && i <= |options|
    ensures |KeptFrom(options, i)| == Rank(kept, |kept|) - Rank(kept, i)
    decreases |options| - i
  {
    if i < |options| {
      var next := i + 1;
      KeptCount(options, kept, next);
      KeptUnfold(options, i, next, KeptFrom(options, next));
      RankStep(kept, i, next);
    }
  }

  /** Each value that is there is at its place among them. */
  lemma {:induction false} KeptAt<T>(options: seq<Option<T>>, kept: seq<bool>, i: nat, j: nat, r: nat)
    requires Marks(options, kept) && i <= j < |options| && kept[j] && Rank(kept, j) == Rank(kept, i) + r
    ensures r < |KeptFrom(options, i)| && KeptFrom(options, i)[r] == options[j].value
    decreases j - i
  {
    var next := i + 1;
    var rest := KeptFrom(options, next);
    KeptUnfold(options, i, next, rest);
    if i < j {
      RankStep(kept, i, next);
      RankGrows(kept, next, j);
      var r' := r - |Single(options[i])|;
      KeptAt(options, kept, next, j, r');
      Behind(Single(options[i]), rest, r', r);
    }
  }

  /** The place behind `n` others. */
  function Place(n: nat, kept: seq<bool>, j: nat): nat
    requires j <= |kept|
  {
    n + Rank(kept, j)
  }
}
