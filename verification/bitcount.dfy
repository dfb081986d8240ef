/** How many bits of a bitmap are clear. */
module BitCount {

  function Clear(s: seq<bool>): nat {
    if s == [] then 0 else Clear(s[..|s| - 1]) + if s[|s| - 1] then 0 else 1
  }

  lemma {:induction false} ClearUpdate(s: seq<bool>, i: nat, v: bool)
    requires i < |s|
    ensures Clear(s[i := v]) == Clear(s) + (if s[i] then 1 else 0) - (if v then 1 else 0)
    decreases |s|
  {
    var t := s[i := v];
    if i == |s| - 1 {
      assert t[..|t| - 1] == s[..|s| - 1];
    } else {
      assert t[..|t| - 1] == s[..|s| - 1][i := v];
      ClearUpdate(s[..|s| - 1], i, v);
    }
  }

  lemma {:induction false} ClearNone(s: seq<bool>, i: nat)
    requires i < |s| && Clear(s) == 0
    ensures s[i]
    decreases |s|
  {
    if i < |s| - 1 {
      ClearNone(s[..|s| - 1], i);
    }
  }

  lemma {:induction false} NoneClear(s: seq<bool>)
    requires forall i | 0 <= i < |s| :: s[i]
    ensures Clear(s) == 0
  {
    if s != [] {
      NoneClear(s[..|s| - 1]);
    }
  }

  lemma {:induction false} AllClear(s: seq<bool>)
    requires forall i | 0 <= i < |s| :: !s[i]
    ensures Clear(s) == |s|
  {
    if s != [] {
      AllClear(s[..|s| - 1]);
    }
  }
}
