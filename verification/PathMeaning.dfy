/** Absolute paths as the names they are made of. */
module PathMeaning {
  import opened Text

  /** A name in a path: no separator, no control character, and neither `.` nor `..`. */
  ghost predicate Entry(s: string) {
    s != "" && s != "." && s != ".." && forall k :: 0 <= k < |s| ==> Plain(s[k])
  }

  ghost predicate Plain(c: char) {
    c != '/' && c as int >= 32 && c as int != 127
  }

  ghost function Slashed(names: seq<string>): string {
    if |names| == 0 then "" else "/" + names[0] + Slashed(names[1..])
  }

  ghost predicate Entries(names: seq<string>) {
    forall k :: 0 <= k < |names| ==> Entry(names[k])
  }

  /** What remains of an absolute path from a separator on. */
  ghost predicate Tail(s: string) {
    && (|s| > 0 ==> s[0] == '/')
    && (forall k :: 0 <= k < |s| ==> ' ' <= s[k] && s[k] != 127 as char)
    && (forall k :: 0 <= k < |s| && s[k] == '/' ==> PartFollows(s, k))
  }

  lemma EntryFollows(name: string, rest: string)
    requires Entry(name) && (|rest| > 0 ==> rest[0] == '/')
    ensures PartFollows("/" + name + rest, 0)
  {
    var s := "/" + name + rest;
    assert forall k :: 0 <= k < |name| ==> s[k + 1] == name[k];
    assert |rest| > 0 ==> s[|name| + 1] == '/';
    assert Plain(name[0]);
    if |name| >= 2 { assert Plain(name[1]); }
    if |name| >= 3 { assert Plain(name[2]); }
  }

  lemma FollowsShifted(front: string, rest: string, k: nat)
    requires k < |rest|
    ensures PartFollows(front + rest, |front| + k) <==> PartFollows(rest, k)
  {
    var s := front + rest;
    assert forall j :: 0 <= j < |rest| ==> s[|front| + j] == rest[j];
  }

  lemma {:induction false} SlashedTail(names: seq<string>)
    requires Entries(names)
    ensures Tail(Slashed(names))
  {
    hide PartFollows;
    if |names| > 0 {
      var name, rest := names[0], Slashed(names[1..]);
      var s := "/" + name + rest;
      SlashedTail(names[1..]);
      EntryFollows(name, rest);
      var front := "/" + name;
      forall k | 0 <= k < |s|
        ensures ' ' <= s[k] && s[k] != 127 as char && (s[k] == '/' ==> PartFollows(s, k))
      {
        if 0 < k < |front| {
          assert s[k] == name[k - 1];
          assert Plain(name[k - 1]);
        } else if |front| <= k {
          assert s == front + rest && s[k] == rest[k - |front|];
          FollowsShifted(front, rest, k - |front|);
        }
      }
    }
  }

  /** The end of the name that starts behind the separator. */
  ghost function NameEnd(s: string, k: nat): (e: nat)
    requires k <= |s|
    ensures k <= e <= |s| && (e < |s| ==> s[e] == '/') && forall j :: k <= j < e ==> s[j] != '/'
    decreases |s| - k
  {
    if k == |s| || s[k] == '/' then k else NameEnd(s, k + 1)
  }

  lemma {:induction false} TailSlashed(s: string) returns (names: seq<string>)
    requires Tail(s)
    ensures Entries(names) && Slashed(names) == s
    decreases |s|
  {
    names := [];
    if |s| > 0 {
      var e := NameEnd(s, 1);
      var name, rest := s[1..e], s[e..];
      var front := s[..e];
      TailEntry(s, e);
      TailRest(s, e);
      var others := TailSlashed(rest);
      names := [name] + others;
      assert s == "/" + name + rest;
    }
  }

  lemma TailEntry(s: string, e: nat)
    requires Tail(s) && |s| > 0 && e == NameEnd(s, 1)
    ensures Entry(s[1..e])
  {
    var name := s[1..e];
    assert PartFollows(s, 0);
    forall k | 0 <= k < |name|
      ensures Plain(name[k])
    {
      assert name[k] == s[k + 1];
    }
    assert e > 1;
    assert name != "." by {
      if |name| == 1 { assert name[0] == s[1] && AtEnd(s, 2); }
    }
    assert name != ".." by {
      if |name| == 2 { assert name[0] == s[1] && name[1] == s[2] && AtEnd(s, 3); }
    }
  }

  lemma TailRest(s: string, e: nat)
    requires Tail(s) && 0 < e <= |s| && (e < |s| ==> s[e] == '/')
    ensures Tail(s[e..])
  {
    hide PartFollows;
    var front, rest := s[..e], s[e..];
    assert s == front + rest;
    forall k | 0 <= k < |rest|
      ensures ' ' <= rest[k] && rest[k] != 127 as char && (rest[k] == '/' ==> PartFollows(rest, k))
    {
      assert rest[k] == s[e + k];
      FollowsShifted(front, rest, k);
    }
  }

  /** A text is an absolute path exactly when it is the root or separators and names in turn, at most 4096 long. */
  lemma PathMeans(s: string)
    ensures AbsolutePath(s) <==>
            |s| <= 4096 && (s == "/" || exists names :: names != [] && Entries(names) && Slashed(names) == s)
  {
    hide PartFollows;
    if AbsolutePath(s) && |s| > 1 {
      var names := TailSlashed(s);
    }
    if names :| names != [] && Entries(names) && Slashed(names) == s {
      SlashedTail(names);
      assert Entry(names[0]);
      assert |s| > 1;
    }
  }
}
