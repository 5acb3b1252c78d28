/** SimpleQueryPart: the Select, Delete and Set groups, which compile to a
    keyword followed by their children's fragments separated by commas. */
module SimpleQueryPart {
  import Wrappers
  import opened Text
  import opened QueryParts

  /** The keyword a group opens with; the other operations have none. */
  function Prologue(op: OperationType): (r: Option<string>)
    ensures r.Some? <==> op == Select || op == Delete || op == Set
    ensures op == Select ==> r == Wrappers.Some("select ")
    ensures op == Delete ==> r == Wrappers.Some("DELETE ")
    ensures op == Set ==> r == Wrappers.Some("SET ")
  {
    match op
    case Select => Wrappers.Some("select ")
    case Delete => Wrappers.Some("DELETE ")
    case Set => Wrappers.Some("SET ")
    case _ => Wrappers.None
  }

  const NotImplementedMessage: string := "OperationType is not implemented in SelectMapQueryPart"

  /** The compiled texts of the children, in order. */
  function Texts(children: seq<Part>, compile: Part -> string): (r: seq<string>)
    ensures |r| == |children|
    ensures forall i :: 0 <= i < |children| ==> r[i] == compile(children[i])
  {
    seq(|children|, i requires 0 <= i < |children| => compile(children[i]))
  }

  /** What child `i` contributes: nothing when its text is empty, else its text,
      a comma unless it is the group's last child, and a space. */
  function Entry(texts: seq<string>, i: nat): string
    requires i < |texts|
  {
    if texts[i] == "" then "" else texts[i] + (if i == |texts| - 1 then "" else ",") + " "
  }

  /** The contributions of the first `n` children. */
  function BodyUpTo(texts: seq<string>, n: nat): string
    requires n <= |texts|
  {
    if n == 0 then "" else BodyUpTo(texts, n - 1) + Entry(texts, n - 1)
  }

  /** The text after the keyword, as the source writes it. */
  function GroupBody(texts: seq<string>): string {
    BodyUpTo(texts, |texts|)
  }

  /** One turn of Compile's loop appends child `i`'s entry. */
  lemma AppendEntry(prologue: string, texts: seq<string>, i: nat, before: string, after: string)
    requires i < |texts| && before == prologue + BodyUpTo(texts, i)
    requires after == if texts[i] == "" then before
                      else before + texts[i] + (if i == |texts| - 1 then "" else ",") + " "
    ensures after == prologue + BodyUpTo(texts, i + 1)
  {
    var body := BodyUpTo(texts, i);
    if texts[i] != "" {
      var sep := if i == |texts| - 1 then "" else ",";
      calc {
        after;
        prologue + body + texts[i] + sep + " ";
        prologue + (body + (texts[i] + sep + " "));
      }
    }
  }

  /** Compile: the keyword, then each non-empty child text with ", " after it
      (only " " after the last child), passed through the dialect's line-break
      removal; operations without a keyword fail with NotImplemented. */
  method Compile(op: OperationType, children: seq<Part>, compile: Part -> string,
                 removeLineBreak: string -> string)
    returns (r: Wrappers.Result<string>)
    ensures Prologue(op).None? ==> r == Wrappers.Failure(Wrappers.NotImplemented(NotImplementedMessage))
    ensures Prologue(op).Some? ==>
              r == Wrappers.Success(removeLineBreak(Prologue(op).value + GroupBody(Texts(children, compile))))
  {
    var prologue := Prologue(op);
    if prologue.None? {
      return Wrappers.Failure(Wrappers.NotImplemented(NotImplementedMessage));
    }
    ghost var texts := Texts(children, compile);
    var sb := prologue.value;
    var i := 0;
    while i < |children|
      invariant 0 <= i <= |children|
      invariant sb == prologue.value + BodyUpTo(texts, i)
    {
      var value := compile(children[i]);
      assert value == texts[i];
      ghost var before := sb;
      if value != "" {
        sb := sb + value + (if i == |children| - 1 then "" else ",") + " ";
      }
      AppendEntry(prologue.value, texts, i, before, sb);
      i := i + 1;
    }
    assert sb == prologue.value + GroupBody(texts);
    r := Wrappers.Success(removeLineBreak(sb));
  }

  /** The strings joined by ", ", with a trailing ", " when there are any. */
  function Terminated(ts: seq<string>): string {
    if |ts| == 0 then "" else Text.Join(ts, ", ") + ", "
  }

  /** Terminated, one string further. */
  lemma TerminatedSnoc(ts: seq<string>, t: string)
    ensures Terminated(ts + [t]) == Terminated(ts) + (t + ", ")
  {
    JoinSnoc(ts, t, ", ");
  }

  /** A non-empty child before the last contributes its text and ", ". */
  lemma EntryNotLast(texts: seq<string>, i: nat)
    requires i < |texts| - 1 && texts[i] != ""
    ensures Entry(texts, i) == texts[i] + ", "
  {
    assert texts[i] + "," + " " == texts[i] + ", ";
  }

  /** The first `n` children's texts, each non-empty one followed by ", ". */
  function TerminatedUpTo(texts: seq<string>, n: nat): string
    requires n <= |texts|
  {
    if n == 0 then "" else TerminatedUpTo(texts, n - 1) + (if texts[n - 1] == "" then "" else texts[n - 1] + ", ")
  }

  /** While the last child is yet to come, the body so far is the non-empty
      texts joined by ", " with a trailing ", ". */
  lemma BodyBeforeLast(texts: seq<string>, n: nat)
    requires n < |texts|
    ensures BodyUpTo(texts, n) == Terminated(NonEmpty(texts[..n]))
  {
    BodyUpToTerminated(texts, n);
    TerminatedUpToNonEmpty(texts, n);
  }

  lemma {:induction false} BodyUpToTerminated(texts: seq<string>, n: nat)
    requires n < |texts|
    ensures BodyUpTo(texts, n) == TerminatedUpTo(texts, n)
  {
    if n > 0 {
      var tail := if texts[n - 1] == "" then "" else texts[n - 1] + ", ";
      BodyUpToTerminated(texts, n - 1);
      EntryBeforeLast(texts, n - 1);
      AppendBoth(BodyUpTo(texts, n), BodyUpTo(texts, n - 1), Entry(texts, n - 1),
                 TerminatedUpTo(texts, n), TerminatedUpTo(texts, n - 1), tail);
    }
  }

  /** Equal strings with equal strings appended are equal. */
  lemma AppendBoth(x: string, a: string, b: string, y: string, c: string, d: string)
    requires x == a + b && y == c + d && a == c && b == d
    ensures x == y
  {
  }

  lemma {:induction false} TerminatedUpToNonEmpty(texts: seq<string>, n: nat)
    requires n <= |texts|
    ensures TerminatedUpTo(texts, n) == Terminated(NonEmpty(texts[..n]))
  {
    if n > 0 {
      var prev := NonEmpty(texts[..n - 1]);
      var t := texts[n - 1];
      TerminatedUpToNonEmpty(texts, n - 1);
      NonEmptyPrefixSnoc(texts, n);
      if t == "" {
        assert NonEmpty(texts[..n]) == prev;
      } else {
        TerminatedSnoc(prev, t);
      }
    }
  }

  /** The non-empty texts of a prefix, one child further. */
  lemma NonEmptyPrefixSnoc(texts: seq<string>, n: nat)
    requires 0 < n <= |texts|
    ensures NonEmpty(texts[..n]) == NonEmpty(texts[..n - 1]) + (if texts[n - 1] == "" then [] else [texts[n - 1]])
  {
    assert texts[..n][..n - 1] == texts[..n - 1];
  }

  /** A child before the last contributes nothing or its text and ", ". */
  lemma EntryBeforeLast(texts: seq<string>, i: nat)
    requires i < |texts| - 1
    ensures Entry(texts, i) == if texts[i] == "" then "" else texts[i] + ", "
  {
    if texts[i] != "" {
      EntryNotLast(texts, i);
    }
  }

  /** When the last child's text is not empty, the body is the non-empty texts
      joined by ", ", then a space: children A, B, C give "A, B, C ". With no
      children it is empty. */
  lemma GroupBodyJoins(texts: seq<string>)
    requires |texts| == 0 || texts[|texts| - 1] != ""
    ensures |NonEmpty(texts)| == 0 ==> GroupBody(texts) == ""
    ensures |NonEmpty(texts)| > 0 ==> GroupBody(texts) == Text.Join(NonEmpty(texts), ", ") + " "
  {
    if |texts| > 0 {
      var n := |texts| - 1;
      var last := texts[n];
      var prev := NonEmpty(texts[..n]);
      assert GroupBody(texts) == Terminated(prev) + last + " " by {
        BodyBeforeLast(texts, n);
        LastEntry(texts);
      }
      assert NonEmpty(texts) == prev + [last];
      TerminatedThenLast(prev, last, GroupBody(texts), NonEmpty(texts));
    }
  }

  /** Terminated strings followed by one more and a space: the strings joined
      by ", ", then a space. */
  lemma TerminatedThenLast(ts: seq<string>, t: string, body: string, all: seq<string>)
    requires body == Terminated(ts) + t + " " && all == ts + [t]
    ensures |all| > 0 && body == Text.Join(all, ", ") + " "
  {
    JoinSnoc(ts, t, ", ");
    if |ts| == 0 {
      assert Terminated(ts) + t == t;
    }
  }

  lemma LastEntry(texts: seq<string>)
    requires |texts| > 0 && texts[|texts| - 1] != ""
    ensures GroupBody(texts) == BodyUpTo(texts, |texts| - 1) + texts[|texts| - 1] + " "
  {
  }

  /** As written: the comma is left out after the last child, not after the
      last non-empty one, so a trailing empty child leaves a dangling comma. */
  lemma TrailingEmptyChildLeavesComma()
    ensures GroupBody(["A", ""]) == "A, "
    ensures NonEmpty(["A", ""]) == ["A"] && Text.Join(["A"], ", ") + " " == "A "
  {
    assert BodyUpTo(["A", ""], 1) == "A, ";
    assert ["A", ""][..1] == ["A"];
  }

  /** The intended body: the comma decided by the last non-empty child. */
  function IntendedGroupBody(texts: seq<string>): string {
    GroupBody(NonEmpty(texts))
  }

  /** The intended body is the non-empty texts joined by ", " and a space, for
      every list of children. */
  lemma IntendedGroupBodyJoins(texts: seq<string>)
    ensures |NonEmpty(texts)| == 0 ==> IntendedGroupBody(texts) == ""
    ensures |NonEmpty(texts)| > 0 ==> IntendedGroupBody(texts) == Text.Join(NonEmpty(texts), ", ") + " "
  {
    var ne := NonEmpty(texts);
    NonEmptyHasNoEmpty(texts);
    GroupBodyJoins(ne);
    NonEmptyAll(ne);
  }
}
