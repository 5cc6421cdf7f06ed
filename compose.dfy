/**
 * The pure parts of `setupComposeTracking` and of the two observers
 * (chrome-extension/content.js:54-142): reading the recipient list, the
 * recipient poll's overwrite rule, the body text read on input, and which
 * nodes an observer callback newly attaches to.
 */
module Compose {

  // ---------------------------------------------------------------------------
  // Recipients
  // ---------------------------------------------------------------------------

  /** `getToEmail`: the `email` attributes of the recipient chips joined by ", ";
      the empty string when there is no chip. */
  function GetToEmail(emails: seq<string>): (r: string)
    ensures emails == [] ==> r == ""
    ensures |emails| == 1 ==> r == emails[0]
  {
    if emails == [] then ""
    else if |emails| == 1 then emails[0]
    else emails[0] + ", " + GetToEmail(emails[1..])
  }

  /** Each further chip adds ", " and its address at the end. */
  lemma {:induction false} GetToEmailSnoc(emails: seq<string>, x: string)
    requires emails != []
    ensures GetToEmail(emails + [x]) == GetToEmail(emails) + ", " + x
    decreases |emails|
  {
    var e := emails + [x];
    assert e[0] == emails[0];
    if |emails| == 1 {
      assert e[1..] == [x];
    } else {
      assert e[1..] == emails[1..] + [x];
      GetToEmailSnoc(emails[1..], x);
    }
  }

  /** Two chips are joined by a comma and one space. */
  lemma GetToEmailTwo(a: string, b: string)
    ensures GetToEmail([a, b]) == a + ", " + b
  {
    GetToEmailSnoc([a], b);
    assert [a] + [b] == [a, b];
  }

  predicate NoComma(x: string) {
    forall k :: 0 <= k < |x| ==> x[k] != ','
  }

  /** Index of the first comma of `s`, or `|s|`. */
  function FirstComma(s: string): (k: nat)
    ensures k <= |s| && (k < |s| ==> s[k] == ',')
    ensures NoComma(s[..k])
  {
    if s == [] then 0
    else if s[0] == ',' then 0
    else
      var k := 1 + FirstComma(s[1..]);
      assert s[..k] == [s[0]] + s[1..][..k - 1];
      k
  }

  /** Reads a ", "-joined list back into its parts. */
  function SplitAddresses(s: string): seq<string>
    decreases |s|
  {
    var k := FirstComma(s);
    if k == |s| then [s]
    else
      var rest := s[k + 1..];
      [s[..k]] + SplitAddresses(if rest != [] && rest[0] == ' ' then rest[1..] else rest)
  }

  lemma FirstCommaOfJoin(x: string, rest: string)
    requires NoComma(x)
    ensures FirstComma(x + rest) == |x| + FirstComma(rest)
    decreases |x|
  {
    if x != [] {
      assert x[0] != ',';
      assert (x + rest)[0] == x[0];
      assert (x + rest)[1..] == x[1..] + rest;
      assert NoComma(x[1..]) by {
        forall k | 0 <= k < |x[1..]| ensures x[1..][k] != ',' { assert x[1..][k] == x[k + 1]; }
      }
      FirstCommaOfJoin(x[1..], rest);
      assert FirstComma(x + rest) == 1 + FirstComma((x + rest)[1..]);
    } else {
      assert x + rest == rest;
    }
  }

  lemma SplitNoComma(x: string)
    requires NoComma(x)
    ensures SplitAddresses(x) == [x]
  {
    FirstCommaOfJoin(x, "");
    assert x + "" == x;
  }

  lemma SplitJoinStep(x: string, tail: string)
    requires NoComma(x)
    ensures SplitAddresses(x + ", " + tail) == [x] + SplitAddresses(tail)
  {
    var s := x + ", " + tail;
    assert s == x + (", " + tail);
    FirstCommaOfJoin(x, ", " + tail);
    assert FirstComma(", " + tail) == 0;
    assert s[..|x|] == x;
    assert s[|x| + 1..] == " " + tail;
    assert (" " + tail)[1..] == tail;
  }

  /** The joined recipient text determines the addresses, as long as no address contains a comma. */
  lemma {:induction false} SplitGetToEmail(emails: seq<string>)
    requires emails != []
    requires forall k :: 0 <= k < |emails| ==> NoComma(emails[k])
    ensures SplitAddresses(GetToEmail(emails)) == emails
    decreases |emails|
  {
    if |emails| == 1 {
      SplitNoComma(emails[0]);
    } else {
      SplitJoinStep(emails[0], GetToEmail(emails[1..]));
      SplitGetToEmail(emails[1..]);
      assert emails == [emails[0]] + emails[1..];
    }
  }

  /** The recipient poll's rule: overwrite only with a non-empty, different value. */
  function NextRecipient(current: string, read: string): (r: string)
    ensures r == current || (r == read && read != "" && read != current)
    ensures current != "" ==> r != ""
    ensures read != "" ==> r == read
  {
    if read != "" && read != current then read else current
  }

  /** The recipient after a series of polls that read `polled` in order. */
  function PollAll(current: string, polled: seq<string>): string
    decreases |polled|
  {
    if polled == [] then current else PollAll(NextRecipient(current, polled[0]), polled[1..])
  }

  /** The last non-empty value among `polled`, or `fallback` when all are empty. */
  function LastNonEmpty(polled: seq<string>, fallback: string): string
    decreases |polled|
  {
    if polled == [] then fallback
    else if polled[|polled| - 1] != "" then polled[|polled| - 1]
    else LastNonEmpty(polled[..|polled| - 1], fallback)
  }

  lemma {:induction false} LastNonEmptyCons(x: string, rest: seq<string>, fallback: string)
    ensures LastNonEmpty([x] + rest, fallback) == LastNonEmpty(rest, if x != "" then x else fallback)
    decreases |rest|
  {
    if rest != [] {
      var full := [x] + rest;
      assert full[..|full| - 1] == [x] + rest[..|rest| - 1];
      LastNonEmptyCons(x, rest[..|rest| - 1], fallback);
    }
  }

  /** After any series of polls the recipient is the most recent non-empty
      address text read, or the original recipient when none was read: the
      poll never empties a recipient and never loses a newer address. */
  lemma {:induction false} PollAllIsLastNonEmpty(current: string, polled: seq<string>)
    ensures PollAll(current, polled) == LastNonEmpty(polled, current)
    decreases |polled|
  {
    if polled != [] {
      PollAllIsLastNonEmpty(NextRecipient(current, polled[0]), polled[1..]);
      LastNonEmptyCons(polled[0], polled[1..], current);
      assert [polled[0]] + polled[1..] == polled;
    }
  }

  /** `textArea.innerText || textArea.textContent`. */
  function BodyText(innerText: string, textContent: string): (r: string)
    ensures innerText != "" ==> r == innerText
    ensures innerText == "" ==> r == textContent
  {
    if innerText != "" then innerText else textContent
  }

  // ---------------------------------------------------------------------------
  // Attach-once registry
  // ---------------------------------------------------------------------------

  /** The identity of a DOM node (a compose dialog or a send button). */
  type NodeId = nat

  /** Types of mutation records; only `childList` records make the compose observer look for dialogs. */
  datatype MutationKind = ChildList | Attributes | CharacterData

  predicate NoDuplicates(xs: seq<NodeId>) {
    forall j, k :: 0 <= j < k < |xs| ==> xs[j] != xs[k]
  }

  function Elements(xs: seq<NodeId>): set<NodeId> {
    set x | x in xs
  }

  /** The nodes a `forEach` over `nodes` attaches to, in order, when the nodes
      in `marked` already carry the marker attribute: each unmarked node the
      first time it is met. */
  function NewlyAttached(nodes: seq<NodeId>, marked: set<NodeId>): (r: seq<NodeId>)
    ensures forall x :: x in r ==> x in nodes && x !in marked
    decreases |nodes|
  {
    if nodes == [] then []
    else
      var init := nodes[..|nodes| - 1];
      var last := nodes[|nodes| - 1];
      var r := NewlyAttached(init, marked);
      if last in marked || last in init then r else r + [last]
  }

  /** Every unmarked node is attached exactly once, and nothing else is. */
  lemma {:induction false} NewlyAttachedExactlyOnce(nodes: seq<NodeId>, marked: set<NodeId>)
    ensures NoDuplicates(NewlyAttached(nodes, marked))
    ensures Elements(NewlyAttached(nodes, marked)) == Elements(nodes) - marked
    decreases |nodes|
  {
    if nodes != [] {
      var init := nodes[..|nodes| - 1];
      var last := nodes[|nodes| - 1];
      var r := NewlyAttached(init, marked);
      NewlyAttachedExactlyOnce(init, marked);
      assert nodes == init + [last];
      assert Elements(nodes) == Elements(init) + {last};
      if !(last in marked || last in init) {
        assert last !in r;
        assert Elements(r + [last]) == Elements(r) + {last};
      }
    }
  }

  /** When every node already carries the marker, a callback attaches nothing. */
  lemma NothingNewWhenMarked(nodes: seq<NodeId>, marked: set<NodeId>)
    requires Elements(nodes) <= marked
    ensures NewlyAttached(nodes, marked) == []
  {
    NewlyAttachedExactlyOnce(nodes, marked);
  }

  /** The number of times `x` occurs in `xs`. */
  function Count(xs: seq<NodeId>, x: NodeId): nat
    decreases |xs|
  {
    if xs == [] then 0 else (if xs[0] == x then 1 else 0) + Count(xs[1..], x)
  }

  /** In a list without duplicates each node occurs at most once. */
  lemma {:induction false} CountAtMostOne(xs: seq<NodeId>, x: NodeId)
    requires NoDuplicates(xs)
    ensures Count(xs, x) <= 1
    ensures Count(xs, x) == 1 <==> x in xs
    decreases |xs|
  {
    if xs != [] {
      CountAtMostOne(xs[1..], x);
      if xs[0] == x {
        assert x !in xs[1..] by {
          forall k | 0 <= k < |xs[1..]| ensures xs[1..][k] != x {
            assert xs[1..][k] == xs[k + 1];
          }
        }
      }
    }
  }
}
