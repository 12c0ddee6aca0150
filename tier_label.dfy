/**
 * The label a tier key is shown under: `key.replace(/([a-z])([A-Z])/g, "$1 $2")`,
 * which splits a camel-case key such as "UltraRare" into "Ultra Rare".
 */
module TierLabel {
  import opened Text
  import opened Interaction

  /** A lowercase letter followed by an uppercase one: what `([a-z])([A-Z])` matches. */
  predicate Boundary(a: char, b: char) {
    IsLower(a) && IsUpper(b)
  }

  /**
   * The regular-expression replacement as the engine performs it: scan left to right;
   * at a match, emit the two captured letters with a space between them and resume
   * AFTER the match (global matches do not overlap); otherwise copy one character.
   */
  function Label(s: string): (r: string)
    ensures |r| >= |s|
  {
    if |s| >= 2 && Boundary(s[0], s[1]) then [s[0], ' ', s[1]] + Label(s[2..])
    else if s == [] then []
    else [s[0]] + Label(s[1..])
  }

  /** Position `i` of `s` gets a space in front of it: `s[i-1]` is lowercase and `s[i]` uppercase. */
  predicate SpaceBefore(s: string, i: int) {
    0 < i < |s| && Boundary(s[i - 1], s[i])
  }

  /** No position of `s` gets a space in front of it. */
  predicate NoBoundary(s: string) {
    forall i :: 0 < i < |s| ==> !SpaceBefore(s, i)
  }

  /** The number of positions `j` with `0 < j < n` that get a space in front of them. */
  function Inserted(s: string, n: nat): (r: nat)
    requires n <= |s|
    ensures r < n || n == 0
  {
    if n <= 1 then 0 else Inserted(s, n - 1) + (if SpaceBefore(s, n - 1) then 1 else 0)
  }

  /**
   * The index-wise description, written recursively: every character is copied, and a
   * space follows it exactly when it is lowercase and the next character is uppercase.
   */
  function Spaced(s: string): (r: string)
  {
    if |s| <= 1 then s
    else [s[0]] + (if Boundary(s[0], s[1]) then " " else "") + Spaced(s[1..])
  }

  /** Removes the spaces `Label` inserts: a space between a lowercase and an uppercase letter. */
  function Unspace(r: string): (s: string)
    ensures |s| <= |r|
  {
    if |r| >= 3 && IsLower(r[0]) && r[1] == ' ' && IsUpper(r[2]) then [r[0]] + Unspace(r[2..])
    else if r == [] then []
    else [r[0]] + Unspace(r[1..])
  }

  /** The option choices the `tier` option offers: one per configured key, shown under its label. */
  function TierChoices(keys: seq<string>): (r: seq<Choice>)
    ensures |r| == |keys|
    ensures forall i :: 0 <= i < |keys| ==> r[i].value == keys[i]
    ensures forall i :: 0 <= i < |keys| ==> r[i].name == Spaced(keys[i])
    ensures forall i :: 0 <= i < |keys| && ' ' !in keys[i] ==> Unspace(r[i].name) == keys[i]
  {
    if keys == [] then []
    else
      LabelIsSpaced(keys[0]);
      assert ' ' !in keys[0] ==> Unspace(Label(keys[0])) == keys[0] by {
        if ' ' !in keys[0] { LabelRoundTrip(keys[0]); }
      }
      [Choice(Label(keys[0]), keys[0])] + TierChoices(keys[1..])
  }

  // ---------------------------------------------------------------------------
  // The regular-expression scan agrees with the index-wise description.

  lemma {:induction false} SpacedHead(s: string)
    requires |s| > 0
    ensures |Spaced(s)| > 0 && Spaced(s)[0] == s[0]
  {
  }

  /** Global, non-overlapping matching misses no boundary: the uppercase half of a match cannot start the next one. */
  lemma {:induction false} LabelIsSpaced(s: string)
    ensures Label(s) == Spaced(s)
    decreases |s|
  {
    if |s| >= 2 && Boundary(s[0], s[1]) {
      var t := s[1..];
      UpperIsNotLower(s[1]);
      LabelIsSpaced(s[2..]);
      assert t[1..] == s[2..];
      if |t| >= 2 {
        assert !Boundary(t[0], t[1]);
        assert Spaced(t) == [s[1]] + Spaced(s[2..]);
      } else {
        assert Spaced(t) == [s[1]];
        assert Label(s[2..]) == [];
      }
    } else if s != [] {
      LabelIsSpaced(s[1..]);
      if |s| == 1 {
        assert Label(s[1..]) == [];
      }
    }
  }

  lemma {:induction false} InsertedShift(s: string, n: nat)
    requires 1 <= n <= |s|
    ensures Inserted(s, n) == (if n >= 2 && SpaceBefore(s, 1) then 1 else 0) + Inserted(s[1..], n - 1)
  {
    if n >= 3 {
      InsertedShift(s, n - 1);
      assert SpaceBefore(s, n - 1) == SpaceBefore(s[1..], n - 2);
    }
  }

  /** The label is longer than the key by the number of boundaries. */
  lemma {:induction false} SpacedLength(s: string)
    ensures |Spaced(s)| == |s| + Inserted(s, |s|)
  {
    if |s| >= 2 {
      SpacedLength(s[1..]);
      InsertedShift(s, |s|);
    }
  }

  /** Character `i` of the key lands at `i` plus the number of spaces inserted up to it. */
  lemma {:induction false} SpacedChar(s: string, i: nat)
    requires i < |s|
    ensures i + Inserted(s, i + 1) < |Spaced(s)| && Spaced(s)[i + Inserted(s, i + 1)] == s[i]
  {
    if i > 0 {
      var t := s[1..];
      var head := [s[0]] + (if Boundary(s[0], s[1]) then " " else "");
      assert Spaced(s) == head + Spaced(t);
      SpacedChar(t, i - 1);
      InsertedShift(s, i + 1);
      assert Inserted(s, i + 1) == |head| - 1 + Inserted(t, i);
    } else {
      SpacedHead(s);
    }
  }

  /** Right in front of character `i` of the key stands a space at a boundary, and character `i - 1` otherwise. */
  lemma {:induction false} SpacedGap(s: string, i: nat)
    requires 0 < i < |s|
    ensures i + Inserted(s, i + 1) - 1 < |Spaced(s)|
    ensures Spaced(s)[i + Inserted(s, i + 1) - 1] == if SpaceBefore(s, i) then ' ' else s[i - 1]
  {
    SpacedChar(s, i);
    var t := s[1..];
    var head := [s[0]] + (if Boundary(s[0], s[1]) then " " else "");
    assert Spaced(s) == head + Spaced(t);
    InsertedShift(s, i + 1);
    assert Inserted(s, i + 1) == |head| - 1 + Inserted(t, i);
    if i >= 2 {
      SpacedGap(t, i - 1);
      assert SpaceBefore(s, i) == SpaceBefore(t, i - 1);
      assert Spaced(s)[i + Inserted(s, i + 1) - 1] == Spaced(t)[(i - 1) + Inserted(t, i) - 1];
    }
  }

  // ---------------------------------------------------------------------------
  // What the label promises about the key.

  /** A key with no lowercase-to-uppercase boundary is shown unchanged. */
  lemma {:induction false} LabelUnchanged(s: string)
    requires NoBoundary(s)
    ensures Label(s) == s
  {
    LabelIsSpaced(s);
    SpacedUnchanged(s);
  }

  lemma {:induction false} SpacedUnchanged(s: string)
    requires NoBoundary(s)
    ensures Spaced(s) == s
  {
    if |s| >= 2 {
      assert !SpaceBefore(s, 1);
      var t := s[1..];
      assert forall i :: 0 < i < |t| ==> SpaceBefore(t, i) == SpaceBefore(s, i + 1);
      SpacedUnchanged(t);
      assert s == [s[0]] + t;
    }
  }

  /** The label itself has no boundary left. */
  lemma {:induction false} SpacedNoBoundary(s: string)
    ensures NoBoundary(Spaced(s))
  {
    if |s| >= 2 {
      var t := s[1..];
      SpacedNoBoundary(t);
      SpacedHead(t);
      var head := [s[0]] + (if Boundary(s[0], s[1]) then " " else "");
      var r := Spaced(s);
      assert r == head + Spaced(t);
      forall i | 0 < i < |r|
        ensures !SpaceBefore(r, i)
      {
        if i >= |head| + 1 {
          assert SpaceBefore(r, i) == SpaceBefore(Spaced(t), i - |head|);
        }
      }
    }
  }

  /** Formatting a label again changes nothing. */
  lemma LabelIdempotent(s: string)
    ensures Label(Label(s)) == Label(s)
  {
    LabelIsSpaced(s);
    SpacedNoBoundary(s);
    LabelUnchanged(Spaced(s));
  }

  /** Deleting the inserted spaces gives back a key that holds no space of its own. */
  lemma {:induction false} LabelRoundTrip(s: string)
    requires ' ' !in s
    ensures Unspace(Label(s)) == s
  {
    LabelIsSpaced(s);
    SpacedRoundTrip(s);
  }

  lemma {:induction false} SpacedRoundTrip(s: string)
    requires ' ' !in s
    ensures Unspace(Spaced(s)) == s
  {
    if |s| >= 2 {
      var t := s[1..];
      assert ' ' !in t by {
        forall j | 0 <= j < |t| ensures t[j] != ' ' { assert t[j] == s[j + 1]; assert s[j + 1] in s; }
      }
      SpacedRoundTrip(t);
      SpacedHead(t);
      var r := Spaced(s);
      if Boundary(s[0], s[1]) {
        assert r == [s[0], ' '] + Spaced(t);
        assert r[2..] == Spaced(t);
        assert Unspace(r) == [s[0]] + Unspace(r[2..]);
      } else {
        assert r == [s[0]] + Spaced(t);
        assert r[1..] == Spaced(t);
        assert s[1] in s;
        assert r[1] != ' ';
        assert Unspace(r) == [s[0]] + Unspace(r[1..]);
      }
      assert s == [s[0]] + t;
    } else if |s| == 1 {
      assert Unspace(s) == [s[0]] + Unspace([]);
    }
  }

  /** Distinct keys without spaces are offered under distinct labels. */
  lemma LabelInjective(a: string, b: string)
    requires ' ' !in a && ' ' !in b
    requires Label(a) == Label(b)
    ensures a == b
  {
    LabelRoundTrip(a);
    LabelRoundTrip(b);
  }
}
