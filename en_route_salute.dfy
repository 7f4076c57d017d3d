/**
 * En Route Salute: a hallway is a string of '>' (walking right), '<'
 * (walking left) and '-' (empty). Every right-walker meets every left-walker
 * that starts to its right, and each meeting is two salutes.
 */
module EnRouteSalute {

  /** The number of '>' in `s`. */
  function RightFacing(s: string): nat
  {
    if s == [] then 0 else RightFacing(s[..|s| - 1]) + if s[|s| - 1] == '>' then 1 else 0
  }

  /** The number of meetings in `s`: each '<' meets every '>' to its left. */
  function Crossings(s: string): nat
  {
    if s == [] then 0 else Crossings(s[..|s| - 1]) + if s[|s| - 1] == '<' then RightFacing(s[..|s| - 1]) else 0
  }

  /** The meetings as index pairs: a '>' at i and a '<' at j further right. */
  ghost function Encounters(s: string): set<(int, int)>
  {
    set i, j | 0 <= i < j < |s| && s[i] == '>' && s[j] == '<' :: (i, j)
  }

  /** The '>' among the first `m` characters, each paired with position `k`. */
  ghost function MeetAt(s: string, m: int, k: int): set<(int, int)>
    requires 0 <= m <= |s|
  {
    set i | 0 <= i < m && s[i] == '>' :: (i, k)
  }

  lemma {:induction false} MeetAtSize(s: string, m: int, k: int)
    requires 0 <= m <= |s|
    ensures |MeetAt(s, m, k)| == RightFacing(s[..m])
    decreases m
  {
    if m > 0 {
      MeetAtSize(s, m - 1, k);
      assert s[..m][..m - 1] == s[..m - 1];
      if s[m - 1] == '>' {
        assert MeetAt(s, m, k) == MeetAt(s, m - 1, k) + {(m - 1, k)};
      } else {
        assert MeetAt(s, m, k) == MeetAt(s, m - 1, k);
      }
    }
  }

  /** The recursive count is the number of meeting pairs. */
  lemma {:induction false} CrossingsAreEncounters(s: string)
    ensures Crossings(s) == |Encounters(s)|
    decreases |s|
  {
    if s != [] {
      var k := |s| - 1;
      var init := s[..k];
      CrossingsAreEncounters(init);
      if s[k] == '<' {
        assert Encounters(s) == Encounters(init) + MeetAt(s, k, k);
        assert Encounters(init) !! MeetAt(s, k, k);
        MeetAtSize(s, k, k);
        assert s[..k] == init;
      } else {
        assert Encounters(s) == Encounters(init);
      }
    }
  }

  lemma RightFacingSnoc(s: string, c: char)
    ensures RightFacing(s + [c]) == RightFacing(s) + if c == '>' then 1 else 0
    ensures Crossings(s + [c]) == Crossings(s) + if c == '<' then RightFacing(s) else 0
  {
    assert (s + [c])[..|s|] == s;
  }

  /** A character other than '>' or '<' anywhere in the hallway changes nothing. */
  lemma {:induction false} OtherCharacter(a: string, c: char, b: string)
    requires c != '>' && c != '<'
    ensures RightFacing(a + [c] + b) == RightFacing(a + b)
    ensures Crossings(a + [c] + b) == Crossings(a + b)
    decreases |b|
  {
    if b == [] {
      RightFacingSnoc(a, c);
      assert a + [c] + b == a + [c] && a + b == a;
    } else {
      var init, x := b[..|b| - 1], b[|b| - 1];
      OtherCharacter(a, c, init);
      assert a + [c] + b == (a + [c] + init) + [x];
      assert a + b == (a + init) + [x];
      RightFacingSnoc(a + [c] + init, x);
      RightFacingSnoc(a + init, x);
    }
  }

  /** The salute counter of `solution`. */
  method Solution(s: string) returns (totalSalutes: int)
    ensures totalSalutes == 2 * |Encounters(s)|
  {
    var numFacingRight := 0;
    totalSalutes := 0;
    for i := 0 to |s|
      invariant numFacingRight == RightFacing(s[..i])
      invariant totalSalutes == 2 * Crossings(s[..i])
    {
      var c := s[i];
      assert s[..i + 1] == s[..i] + [c];
      RightFacingSnoc(s[..i], c);
      if c == '-' {
        continue;
      }
      if c == '>' {
        numFacingRight := numFacingRight + 1;
      }
      if c == '<' {
        totalSalutes := totalSalutes + 2 * numFacingRight;
      }
    }
    assert s[..|s|] == s;
    CrossingsAreEncounters(s);
  }

  /** The first `k` characters' counts, read by index. */
  function RightFacingUpTo(s: string, k: nat): nat
    requires k <= |s|
  {
    if k == 0 then 0 else RightFacingUpTo(s, k - 1) + if s[k - 1] == '>' then 1 else 0
  }

  function CrossingsUpTo(s: string, k: nat): nat
    requires k <= |s|
  {
    if k == 0 then 0 else CrossingsUpTo(s, k - 1) + if s[k - 1] == '<' then RightFacingUpTo(s, k - 1) else 0
  }

  lemma {:induction false} UpToPrefix(s: string, k: nat)
    requires k <= |s|
    ensures RightFacingUpTo(s, k) == RightFacing(s[..k]) && CrossingsUpTo(s, k) == Crossings(s[..k])
    decreases k
  {
    if k > 0 {
      UpToPrefix(s, k - 1);
      assert s[..k][..k - 1] == s[..k - 1];
    }
  }

  lemma EncountersByIndex(s: string)
    ensures |Encounters(s)| == CrossingsUpTo(s, |s|)
  {
    UpToPrefix(s, |s|);
    assert s[..|s|] == s;
    CrossingsAreEncounters(s);
  }

  /** The hallways of the asserted cases give 2, 4, 10 and 0 salutes. */
  lemma AssertedCases()
    ensures 2 * |Encounters(">----<")| == 2
    ensures 2 * |Encounters("<<>><")| == 4
    ensures 2 * |Encounters("--->-><-><-->-")| == 10
    ensures 2 * |Encounters(">")| == 0
  {
    EncountersByIndex(">----<");
    EncountersByIndex("<<>><");
    EncountersByIndex("--->-><-><-->-");
    var long := "--->-><-><-->-";
    assert RightFacingUpTo(long, 4) == 1 && CrossingsUpTo(long, 4) == 0;
    assert RightFacingUpTo(long, 7) == 2 && CrossingsUpTo(long, 7) == 2;
    assert RightFacingUpTo(long, 10) == 3 && CrossingsUpTo(long, 10) == 5;
    assert |long| == 14 && CrossingsUpTo(long, 14) == 5;
    EncountersByIndex(">");
  }
}
