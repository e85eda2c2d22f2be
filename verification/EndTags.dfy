/** The states of the matcher for the end tag of a dollar-quoted string. */
module EndTags {
  import opened Octets
  import opened Scanning
  import opened Slices

  /** What has been read of a candidate for the end delimiter, and that none was missed. */
  ghost predicate Matching(s: Text, from: nat, tag: Text, pos: nat, possible: bool, index: int)
    requires pos <= |s|
  {
    if possible then
      && 0 <= index <= |tag| && from <= pos - 1 - index
      && Holds(s, pos - 1 - index, ['$'] + tag[..index])
      && forall k :: from <= k < pos - 1 - index ==> !Holds(s, k, Delimiter(tag))
    else from <= pos && forall k :: from <= k < pos ==> !Holds(s, k, Delimiter(tag))
  }

  ghost predicate InTag(s: Text, start: nat, pos: nat)
    requires start <= pos <= |s|
  {
    forall k :: start <= k < pos ==> IsTagChar(s[k])
  }

  ghost predicate Searching(s: Text, start: nat, tag: Text, pos: nat, possible: bool, index: int)
    requires start <= pos <= |s|
  {
    TagBefore(s, start, tag, pos) && Matching(s, start + |tag| + 1, tag, pos, possible, index)
  }

  lemma TagFound(s: Text, start: nat, t: nat)
    requires start <= t < |s| && s[t] == '$' && InTag(s, start, t)
    ensures Searching(s, start, s[start..t], t + 1, false, -1)
  {
    TagEndIs(s, start, t);
  }

  /** The end tag has been read: the body stands between the tags. */
  ghost predicate Complete(s: Text, start: nat, tag: Text, pos: nat)
    requires start <= pos <= |s|
  {
    && start + |tag| + 1 <= pos - |tag| - 2
    && DollarAt(s, start) == Body(s[start + |tag| + 1..pos - |tag| - 2], pos)
  }

  lemma EndTagRead(s: Text, start: nat, tag: Text, pos: nat)
    requires start < pos <= |s| && s[pos - 1] == '$' && Searching(s, start, tag, pos - 1, true, |tag|)
    ensures Complete(s, start, tag, pos)
  {
    Matched(s, start + |tag| + 1, tag, pos);
    FirstIsUnique(s, start + |tag| + 1, Delimiter(tag), pos - |tag| - 2);
    BehindTag(s, start, tag, pos - 1);
  }

  lemma BehindTag(s: Text, start: nat, tag: Text, pos: nat)
    requires start <= pos <= |s| && TagBefore(s, start, tag, pos)
    ensures DollarAt(s, start) == BodyAt(s, start + |tag| + 1, Delimiter(tag))
  {}

  /** At a dollar sign the end tag is complete, or the sign may be the start of it. */
  lemma AtDollar(s: Text, start: nat, tag: Text, pos: nat, possible: bool, index: int)
    requires start < pos <= |s| && s[pos - 1] == '$' && Searching(s, start, tag, pos - 1, possible, index)
    ensures if possible && |tag| == index then Complete(s, start, tag, pos) else Searching(s, start, tag, pos, true, 0)
  {
    TagHasNoDollar(s, start, tag, pos - 1);
    if !possible {
      MatchStarts(s, start + |tag| + 1, tag, pos);
    } else if |tag| == index {
      EndTagRead(s, start, tag, pos);
    } else {
      MatchRestarts(s, start + |tag| + 1, tag, pos, index);
    }
  }

  lemma AtOtherChar(s: Text, start: nat, tag: Text, pos: nat, possible: bool, index: int)
    requires start < pos <= |s| && s[pos - 1] != '$' && Searching(s, start, tag, pos - 1, possible, index)
    ensures if possible && index < |tag| && s[pos - 1] == tag[index] then Searching(s, start, tag, pos, true, index + 1)
            else forall i :: Searching(s, start, tag, pos, false, i)
  {
    TagHasNoDollar(s, start, tag, pos - 1);
    MatchGoesOn(s, start + |tag| + 1, tag, pos, possible, index);
  }

  lemma AtEnd(s: Text, start: nat, tag: Text, possible: bool, index: int)
    requires start <= |s| && Searching(s, start, tag, |s|, possible, index)
    ensures DollarAt(s, start) == Unended
  {
    BehindTag(s, start, tag, |s|);
    NoRoom(s, start + |tag| + 1, tag, possible, index);
  }

  ghost predicate TagBefore(s: Text, start: nat, tag: Text, pos: nat)
    requires start <= pos <= |s|
  {
    var t := start + |tag|;
    t < pos && tag == s[start..t] && TagEnd(s, start) == t && s[t] == '$'
  }

  lemma {:induction false} TagEndIs(s: Text, i: nat, t: nat)
    requires i <= t <= |s| && (forall k :: i <= k < t ==> IsTagChar(s[k])) && (t == |s| || !IsTagChar(s[t]))
    ensures TagEnd(s, i) == t
    decreases t - i
  {
    if i < t { TagEndIs(s, i + 1, t); }
  }

  lemma DelimiterAt(s: Text, e: nat, tag: Text)
    ensures Holds(s, e, Delimiter(tag)) <==>
      e + |tag| + 2 <= |s| && s[e] == '$' && s[e + |tag| + 1] == '$' && Holds(s, e + 1, tag)
  {
    var d := Delimiter(tag);
    assert d == ['$'] + (tag + ['$']);
    if Holds(s, e, d) {
      HoldsParts(s, e, ['$'], tag + ['$']);
      HoldsParts(s, e + 1, tag, ['$']);
      assert s[e + 0] == ['$'][0] && s[e + 1 + |tag| + 0] == ['$'][0];
    }
  }

  /** No delimiter starts at e when the input differs from it k characters on. */
  lemma Differs(s: Text, e: nat, tag: Text, k: nat)
    requires k < |Delimiter(tag)| && e + k < |s| && s[e + k] != Delimiter(tag)[k]
    ensures !Holds(s, e, Delimiter(tag))
  {}

  ghost predicate NoDollar(tag: Text) {
    forall i :: 0 <= i < |tag| ==> tag[i] != '$'
  }

  lemma Matched(s: Text, from: nat, tag: Text, pos: nat)
    requires 0 < pos <= |s| && s[pos - 1] == '$' && Matching(s, from, tag, pos - 1, true, |tag|)
    ensures from <= pos - |tag| - 2 && FirstAt(s, from, Delimiter(tag), pos - |tag| - 2)
  {
    assert tag[..|tag|] == tag;
    HoldsParts(s, pos - |tag| - 2, ['$'], tag);
    assert s[pos - |tag| - 2 + 0] == ['$'][0];
    DelimiterAt(s, pos - |tag| - 2, tag);
  }

  lemma MatchStarts(s: Text, from: nat, tag: Text, pos: nat)
    requires 0 < pos <= |s| && s[pos - 1] == '$' && Matching(s, from, tag, pos - 1, false, -1)
    ensures Matching(s, from, tag, pos, true, 0)
  {}

  /** The tag matched so far contains no dollar sign, so no delimiter starts inside it. */
  lemma NoneInside(s: Text, tag: Text, c: nat, n: nat, k: nat)
    requires NoDollar(tag) && n <= |tag| && Holds(s, c, ['$'] + tag[..n]) && c < k <= c + n
    ensures k < |s| && !Holds(s, k, Delimiter(tag))
  {
    assert s[c + (k - c)] == (['$'] + tag[..n])[k - c];
    Differs(s, k, tag, 0);
  }

  lemma MatchRestarts(s: Text, from: nat, tag: Text, pos: nat, index: int)
    requires 0 < pos <= |s| && s[pos - 1] == '$' && Matching(s, from, tag, pos - 1, true, index)
    requires NoDollar(tag) && index < |tag|
    ensures Matching(s, from, tag, pos, true, 0)
  {
    var c := pos - 2 - index;
    forall k | from <= k < pos - 1 ensures !Holds(s, k, Delimiter(tag)) {
      if k == c { Differs(s, c, tag, index + 1); }
      if k > c { NoneInside(s, tag, c, index, k); }
    }
  }

  lemma MatchGoesOn(s: Text, from: nat, tag: Text, pos: nat, possible: bool, index: int)
    requires 0 < pos <= |s| && s[pos - 1] != '$' && Matching(s, from, tag, pos - 1, possible, index)
    requires NoDollar(tag)
    ensures if possible && index < |tag| && s[pos - 1] == tag[index] then Matching(s, from, tag, pos, true, index + 1)
            else Matching(s, from, tag, pos, false, -1)
  {
    if possible {
      var c := pos - 2 - index;
      if index < |tag| && s[pos - 1] == tag[index] {
        assert ['$'] + tag[..index + 1] == (['$'] + tag[..index]) + [tag[index]];
      } else {
        forall k | from <= k < pos ensures !Holds(s, k, Delimiter(tag)) {
          if k == c { Differs(s, c, tag, index + 1); }
          if c < k < pos - 1 { NoneInside(s, tag, c, index, k); }
          if k == pos - 1 { Differs(s, k, tag, 0); }
        }
      }
    } else {
      Differs(s, pos - 1, tag, 0);
    }
  }

  lemma NoRoom(s: Text, from: nat, tag: Text, possible: bool, index: int)
    requires Matching(s, from, tag, |s|, possible, index)
    ensures Nowhere(s, from, Delimiter(tag))
  {}

  lemma TagHasNoDollar(s: Text, start: nat, tag: Text, pos: nat)
    requires start <= pos <= |s| && TagBefore(s, start, tag, pos)
    ensures NoDollar(tag)
  {
    forall i | 0 <= i < |tag| ensures tag[i] != '$' { assert IsTagChar(s[start + i]); }
  }

  /**
   A dollar sign that starts no string should stand alone, but its rejected tag has been consumed
   unless it is empty or reaches the end of the input.
   */
  lemma RejectedTag(s: Text, p: nat)
    requires p <= |s| && DollarAt(s, p).NotDollar?
    ensures DollarAt(s, p).end == p <==> (p == |s| || !IsTagChar(s[p]) || TagEnd(s, p) == |s|)
  {}

  lemma RejectedTagConsumed()
    ensures DollarAt("$a b", 1) == NotDollar(2)
  {
    TagEndIs("$a b", 1, 2);
  }
}
