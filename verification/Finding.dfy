/** Occurrences of one string in another. */
module Finding {
  import opened Text

  /** The first occurrence of `w` at or after `i`. */
  function Find(w: string, t: string, i: nat): (m: Option<nat>)
    ensures m.Some? ==> i <= m.value && At(t, m.value, w) && forall j: nat | i <= j < m.value :: !At(t, j, w)
    ensures m.None? ==> forall j: nat | i <= j <= |t| :: !At(t, j, w)
    decreases if i <= |t| then |t| - i else 0
  {
    if At(t, i, w) then Some(i) else if i < |t| then Find(w, t, i + 1) else None
  }

  lemma FindIs(w: string, t: string, i: nat, m: nat)
    requires i <= m && At(t, m, w) && forall j: nat | i <= j < m :: !At(t, j, w)
    ensures Find(w, t, i) == Some(m)
  {
    assert m <= |t|;
    var r := Find(w, t, i);
  }

  ghost predicate Contains(t: string, w: string) { exists j: nat :: At(t, j, w) }

  lemma FindShift(w: string, t: string, i: nat, j: nat)
    requires i + j <= |t|
    ensures Find(w, t[i..], j) == match Find(w, t, i + j) case None => None case Some(m) => Some(m - i)
  {
    var r := Find(w, t, i + j);
    match r
    case Some(m) =>
      forall k: nat | j <= k < m - i ensures !At(t[i..], k, w) { AtShift(t, i, k, w); }
      AtShift(t, i, m - i, w);
      FindIs(w, t[i..], j, m - i);
    case None =>
      forall k: nat | j <= k ensures !At(t[i..], k, w) { AtShift(t, i, k, w); }
  }
}
