/**
 * The texts the page leaves in TempData at the end of a batch that ran to
 * completion: a header followed by the file names joined with "<br/>", as
 * `string.Join` builds it. `Split` reads the names back, and the lemmas
 * below show that the two are inverse to each other.
 */
module Summary {
  import opened Options

  const Br := "<br/>"
  const SuccessHeader := "Successfully uploaded files:<br/>"
  const FailureHeader := "Failed to upload files because they already exist:<br/>"

  /** `string.Join("<br/>", xs)`: the text starts with the first name. */
  function Join(xs: seq<string>): (r: string)
    ensures |xs| > 0 ==> xs[0] <= r
  {
    if |xs| == 0 then ""
    else if |xs| == 1 then xs[0]
    else xs[0] + Br + Join(xs[1..])
  }

  predicate BreakAt(s: string, k: nat)
  {
    k + |Br| <= |s| && s[k..k + |Br|] == Br
  }

  /** The first position at or after `i` where "<br/>" starts, or `|s|` if there is none. */
  function FindBreak(s: string, i: nat): (k: nat)
    requires i <= |s|
    ensures i <= k <= |s|
    ensures k < |s| ==> BreakAt(s, k)
    ensures forall j :: i <= j < k ==> !BreakAt(s, j)
    decreases |s| - i
  {
    if i == |s| || BreakAt(s, i) then i else FindBreak(s, i + 1)
  }

  /** Cuts `s` at every "<br/>", from left to right. */
  function Split(s: string): (parts: seq<string>)
    ensures |parts| > 0
    decreases |s|
  {
    var k := FindBreak(s, 0);
    if k == |s| then [s] else [s[..k]] + Split(s[k + |Br|..])
  }

  /** A name with no '<' in it, so that no "<br/>" can start inside it. */
  predicate Plain(x: string)
  {
    '<' !in x
  }

  /** The message for a list of names: absent when the list is empty (the `Any()` test). */
  function Listing(header: string, names: seq<string>): (m: Option<string>)
    ensures m.Some? <==> |names| > 0
    ensures m.Some? ==> header <= m.value
  {
    if |names| > 0 then Some(header + Join(names)) else None
  }

  /** The success text: present exactly when some file was uploaded, and its reader finds the uploaded names. */
  function SuccessMessage(succeeded: seq<string>): (m: Option<string>)
    ensures m.Some? <==> |succeeded| > 0
    ensures m.Some? ==> SuccessHeader <= m.value
    ensures (forall i :: 0 <= i < |succeeded| ==> Plain(succeeded[i])) ==> Reported(SuccessHeader, m) == succeeded
  {
    if forall i :: 0 <= i < |succeeded| ==> Plain(succeeded[i]) then
      ListingIsReadBack(SuccessHeader, succeeded);
      Listing(SuccessHeader, succeeded)
    else
      Listing(SuccessHeader, succeeded)
  }

  /** The failure text: present exactly when some file failed, and its reader finds the failed names. */
  function FailureMessage(failed: seq<string>): (m: Option<string>)
    ensures m.Some? <==> |failed| > 0
    ensures m.Some? ==> FailureHeader <= m.value
    ensures (forall i :: 0 <= i < |failed| ==> Plain(failed[i])) ==> Reported(FailureHeader, m) == failed
  {
    if forall i :: 0 <= i < |failed| ==> Plain(failed[i]) then
      ListingIsReadBack(FailureHeader, failed);
      Listing(FailureHeader, failed)
    else
      Listing(FailureHeader, failed)
  }

  /** The names a reader of the message finds in it: nothing when there is no message. */
  function Reported(header: string, m: Option<string>): seq<string>
  {
    match m
    case None => []
    case Some(text) => if header <= text then Split(text[|header|..]) else []
  }

  lemma NoBreakInPlain(x: string)
    requires Plain(x)
    ensures FindBreak(x, 0) == |x|
  {
    forall j | 0 <= j < |x|
      ensures !BreakAt(x, j)
    {
      if j + |Br| <= |x| {
        assert x[j..j + |Br|][0] == x[j];
      }
    }
  }

  lemma FirstBreakAfterPlain(x: string, rest: string)
    requires Plain(x)
    ensures FindBreak(x + Br + rest, 0) == |x|
  {
    var s := x + Br + rest;
    assert s[|x|..|x| + |Br|] == Br;
    assert BreakAt(s, |x|);
    forall j | 0 <= j < |x|
      ensures !BreakAt(s, j)
    {
      assert s[j] == x[j];
    }
  }

  lemma SplitAfterPlain(x: string, rest: string)
    requires Plain(x)
    ensures Split(x + Br + rest) == [x] + Split(rest)
  {
    var s := x + Br + rest;
    FirstBreakAfterPlain(x, rest);
    assert s[..|x|] == x;
    assert s[|x| + |Br|..] == rest;
  }

  /** Cutting the joined names at "<br/>" gives the names back, when no name holds a '<'. */
  lemma {:induction false} SplitJoin(xs: seq<string>)
    requires |xs| > 0
    requires forall i :: 0 <= i < |xs| ==> Plain(xs[i])
    ensures Split(Join(xs)) == xs
  {
    if |xs| == 1 {
      NoBreakInPlain(xs[0]);
    } else {
      SplitAfterPlain(xs[0], Join(xs[1..]));
      SplitJoin(xs[1..]);
      assert [xs[0]] + xs[1..] == xs;
    }
  }

  /** Joining the pieces of any text with "<br/>" gives the text back. */
  lemma {:induction false} JoinSplit(s: string)
    ensures Join(Split(s)) == s
    decreases |s|
  {
    var k := FindBreak(s, 0);
    if k < |s| {
      var rest := s[k + |Br|..];
      JoinSplit(rest);
      var parts := Split(s);
      assert parts == [s[..k]] + Split(rest);
      assert parts[0] == s[..k] && parts[1..] == Split(rest);
      assert Join(parts) == s[..k] + Br + rest;
      assert s == s[..k] + s[k..k + |Br|] + rest;
    }
  }

  /** A reader of a listing message finds exactly the listed names, in order. */
  lemma ListingIsReadBack(header: string, names: seq<string>)
    requires forall i :: 0 <= i < |names| ==> Plain(names[i])
    ensures Reported(header, Listing(header, names)) == names
  {
    if |names| > 0 {
      var text := header + Join(names);
      assert text[|header|..] == Join(names);
      SplitJoin(names);
    }
  }
}
