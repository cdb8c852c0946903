/** The three pieces of text processing in the shipment packing slip: the
    shipping method taken out of the order's shipping description, the
    payment title with its parenthesised remarks removed, and the word-wrap
    of the free-text order comment into lines of at most 100 bytes. */
module OrderText {
  import opened PhpStrings

  // ---------------------------------------------------------------------
  // Shipping method (packing_slip/Shipment.php:158-163)
  // ---------------------------------------------------------------------

  const Dash: Bytes := " - "

  /** The shipping method printed on the slip: the second " - "-separated
      piece of the description when it has one, else the description. */
  function ShippingMethod(description: Bytes): Bytes {
    if StrContains(description, Dash) then
      ExplodePieces(Dash, description);
      Explode(Dash, description)[1]
    else description
  }

  /** Without a " - " the description is printed unchanged. With one, the
      method is exactly the text after the first " - ", up to the next
      " - " or to the end, so it contains no " - " itself. */
  lemma ShippingMethodSpec(d: Bytes)
    ensures Absent(d, Dash) ==> ShippingMethod(d) == d
    ensures !Absent(d, Dash) ==>
      && Absent(ShippingMethod(d), Dash)
      && exists i :: FirstOccurrence(d, Dash, i) && AfterFirstDash(d, i, ShippingMethod(d))
  {
    if !Absent(d, Dash) {
      var i := IndexOf(d, Dash).value;
      var rest := d[i + |Dash|..];
      ExplodePieces(Dash, d);
      ExplodePieces(Dash, rest);
      assert Explode(Dash, d) == [d[..i]] + Explode(Dash, rest);
      var m := ShippingMethod(d);
      assert m == Explode(Dash, rest)[0];
      match IndexOf(rest, Dash)
      case None =>
        assert m == rest;
      case Some(j) =>
        assert m == rest[..j];
      assert AfterFirstDash(d, i, m);
    }
  }

  /** m is the text that follows the " - " at byte i of d, up to the next
      " - " or to the end of d. */
  ghost predicate AfterFirstDash(d: Bytes, i: nat, m: Bytes)
    requires i + |Dash| <= |d|
  {
    var rest := d[i + |Dash|..];
    m <= rest && (|m| == |rest| || FirstOccurrence(rest, Dash, |m|))
  }

  // ---------------------------------------------------------------------
  // Payment title (packing_slip/Shipment.php:170)
  // ---------------------------------------------------------------------

  /** The regular expression `\([^)]+\)` matches at the front of s and ends
      at byte q: an opening parenthesis, at least one byte that is not a
      closing parenthesis, then the first closing parenthesis. */
  ghost predicate GroupAt(s: Bytes, q: int) {
    2 <= q < |s| && s[0] == '(' && s[q] == ')' && forall j :: 1 <= j < q ==> s[j] != ')'
  }

  /** No position of t starts a parenthesised group. */
  ghost predicate NoGroup(t: Bytes) {
    forall i, q :: 0 <= i < |t| ==> !GroupAt(t[i..], q)
  }

  lemma OccursByte(t: Bytes, b: Byte, j: int)
    ensures OccursAt(t, [b], j) <==> 0 <= j < |t| && t[j] == b
  {
    if 0 <= j < |t| {
      assert t[j..j + 1] == [t[j]];
    }
  }

  /** Where a group at the front of s ends, if one does. */
  function MatchGroup(s: Bytes): (r: Option<nat>)
    ensures r.Some? ==> GroupAt(s, r.value)
    ensures r.None? ==> forall q :: !GroupAt(s, q)
  {
    if |s| > 0 && s[0] == '(' then
      var t := s[1..];
      assert forall j :: OccursAt(t, ")", j) <==> 0 <= j < |t| && t[j] == ')' by {
        forall j ensures OccursAt(t, ")", j) <==> 0 <= j < |t| && t[j] == ')' {
          OccursByte(t, ')', j);
        }
      }
      match IndexOf(t, ")")
      case Some(k) => if k >= 1 then Some(k + 1) else None
      case None => None
    else None
  }

  /** `preg_replace('/\([^)]+\)/', '', s)`: groups are removed scanning left
      to right; a byte that does not start a group is kept. */
  function StripGroups(s: Bytes): Bytes
    decreases |s|
  {
    if s == [] then []
    else
      match MatchGroup(s)
      case Some(q) => StripGroups(s[q + 1..])
      case None => [s[0]] + StripGroups(s[1..])
  }

  /** The payment title printed on the slip; a null title prints as ''. */
  function PaymentTitle(title: Option<Bytes>): Bytes {
    StripGroups(title.GetOr(""))
  }

  /** Removing groups never introduces a byte that was not there. */
  lemma {:induction false} StripKeepsBytes(s: Bytes)
    ensures forall b :: b in StripGroups(s) ==> b in s
    decreases |s|
  {
    if s != [] {
      match MatchGroup(s)
      case Some(q) =>
        StripKeepsBytes(s[q + 1..]);
      case None =>
        StripKeepsBytes(s[1..]);
    }
  }

  /** A group at the front is removed whole, with nothing else. */
  lemma GroupRemoved(inner: Bytes, rest: Bytes)
    requires |inner| >= 1 && ')' !in inner
    ensures StripGroups("(" + inner + ")" + rest) == StripGroups(rest)
  {
    var s := "(" + inner + ")" + rest;
    var q := |inner| + 1;
    assert GroupAt(s, q);
    assert MatchGroup(s) == Some(q);
    assert s[q + 1..] == rest;
  }

  /** An empty pair of parentheses is not a group and is kept. */
  lemma EmptyParensKept(rest: Bytes)
    ensures StripGroups("()" + rest) == "()" + StripGroups(rest)
  {
    var s := "()" + rest;
    assert !GroupAt(s, 1);
    assert MatchGroup(s).None?;
    assert s[1..] == ")" + rest;
    assert MatchGroup(")" + rest).None?;
    assert (")" + rest)[1..] == rest;
  }

  /** No group survives the removal: whatever is left contains no
      opening parenthesis followed by bytes and a closing one. */
  lemma {:induction false} NoGroupLeft(s: Bytes)
    ensures NoGroup(StripGroups(s))
    decreases |s|
  {
    if s != [] {
      match MatchGroup(s)
      case Some(q) =>
        NoGroupLeft(s[q + 1..]);
      case None =>
        var u := StripGroups(s[1..]);
        var t := [s[0]] + u;
        NoGroupLeft(s[1..]);
        forall i, q | 0 <= i < |t| ensures !GroupAt(t[i..], q) {
          if i > 0 {
            assert t[i..] == u[i - 1..];
          } else {
            assert t[i..] == t;
            if s[0] == '(' && |s| > 1 {
              if s[1] == ')' {
                assert MatchGroup(s[1..]).None?;
                assert u == [s[1]] + StripGroups(s[1..][1..]);
                assert t[1] == ')';
              } else {
                var k := IndexOf(s[1..], ")");
                assert k.None? by {
                  if k.Some? {
                    assert OccursAt(s[1..], ")", k.value);
                    OccursByte(s[1..], ')', k.value);
                  }
                }
                assert ')' !in s[1..] by {
                  forall j | 0 <= j < |s[1..]| ensures s[1..][j] != ')' {
                    OccursByte(s[1..], ')', j);
                  }
                }
                StripKeepsBytes(s[1..]);
                assert ')' !in u;
              }
            }
          }
        }
    }
  }

  /** Text without groups is left alone. */
  lemma {:induction false} StripClean(t: Bytes)
    requires NoGroup(t)
    ensures StripGroups(t) == t
    decreases |t|
  {
    if t != [] {
      assert t[0..] == t;
      assert MatchGroup(t).None?;
      assert NoGroup(t[1..]) by {
        forall i, q | 0 <= i < |t[1..]| ensures !GroupAt(t[1..][i..], q) {
          assert t[1..][i..] == t[i + 1..];
        }
      }
      StripClean(t[1..]);
    }
  }

  /** Cleaning a payment title twice gives the same text as cleaning it
      once, and a null title prints as the empty string. */
  lemma PaymentTitleSpec(title: Option<Bytes>)
    ensures title.None? ==> PaymentTitle(title) == []
    ensures NoGroup(PaymentTitle(title))
    ensures StripGroups(PaymentTitle(title)) == PaymentTitle(title)
  {
    NoGroupLeft(title.GetOr(""));
    StripClean(PaymentTitle(title));
  }

  // ---------------------------------------------------------------------
  // Order comment word-wrap (packing_slip/Shipment.php:293-305)
  // ---------------------------------------------------------------------

  const LineWidth := 100

  /** Where a comment longer than 100 bytes is cut: at the last space among
      its first 100 bytes, or at 100 when there is none or the only one is at
      index 0 (PHP reads the index 0 as false). */
  function BreakAt(s: Bytes): (end: nat)
    requires |s| > LineWidth
    ensures 0 < end <= LineWidth
    ensures end < LineWidth ==> s[end] == ' ' && forall j :: end < j < LineWidth ==> s[j] != ' '
    ensures end == LineWidth ==> forall j :: 0 < j < LineWidth ==> s[j] != ' '
  {
    match LastIndexOf(s[..LineWidth], ' ')
    case Some(e) => if e != 0 then e else LineWidth
    case None => LineWidth
  }

  /** One pass of the loop: the line drawn and the comment left over. The
      byte after the line is consumed: the space at the break, or, on a hard
      cut, the byte at index 100. */
  function WrapStep(s: Bytes): (r: (Bytes, Bytes))
    requires |s| > 0
    ensures |r.0| <= LineWidth && |r.1| < |s|
    ensures |s| <= LineWidth ==> r == (s, [])
    ensures |s| > LineWidth ==> |r.0| < |s| && s == r.0 + [s[|r.0|]] + r.1
  {
    if |s| > LineWidth then
      var end := BreakAt(s);
      assert s == s[..end] + [s[end]] + s[end + 1..];
      (s[..end], s[end + 1..])
    else (s, [])
  }

  /** The lines the loop draws for a comment, first line first. */
  function WrapLines(s: Bytes): seq<Bytes>
    decreases |s|
  {
    if s == [] then [] else [WrapStep(s).0] + WrapLines(WrapStep(s).1)
  }

  /** Every line drawn is at most 100 bytes long and none is drawn for an
      empty comment. */
  lemma {:induction false} WrapLinesBounded(s: Bytes)
    ensures s == [] <==> WrapLines(s) == []
    ensures forall k :: 0 <= k < |WrapLines(s)| ==> |WrapLines(s)[k]| <= LineWidth
    decreases |s|
  {
    if s != [] {
      WrapLinesBounded(WrapStep(s).1);
      assert WrapLines(s)[1..] == WrapLines(WrapStep(s).1);
    }
  }

  /** A comment of at most 100 bytes is drawn whole, as the last line. */
  lemma WrapShortComment(s: Bytes)
    requires 0 < |s| <= LineWidth
    ensures WrapLines(s) == [s]
  {
    assert WrapStep(s) == (s, []);
  }

  /** Breaking at a space: when the last space among the first 100 bytes of
      a longer comment is at index end > 0, the line is the text before it
      and the space is neither drawn nor carried over. */
  lemma WrapAtSpace(s: Bytes, end: nat)
    requires |s| > LineWidth
    requires 0 < end < LineWidth && s[end] == ' '
    requires forall j :: end < j < LineWidth ==> s[j] != ' '
    ensures WrapLines(s) == [s[..end]] + WrapLines(s[end + 1..])
  {
    assert BreakAt(s) == end;
  }

  /** Hard cut: when none of bytes 1 to 99 is a space, the line is the
      first 100 bytes and the byte at index 100 is skipped. */
  lemma WrapHardCut(s: Bytes)
    requires |s| > LineWidth
    requires forall j :: 0 < j < LineWidth ==> s[j] != ' '
    ensures WrapLines(s) == [s[..LineWidth]] + WrapLines(s[LineWidth + 1..])
  {
    assert BreakAt(s) == LineWidth;
  }

  // ---------------------------------------------------------------------
  // The byte lost on a hard cut, and the cut that keeps it
  // ---------------------------------------------------------------------

  /** The non-space bytes of s, in order. */
  function NonSpace(s: Bytes): (r: Bytes)
    ensures |r| <= |s|
    decreases |s|
  {
    if s == [] then [] else (if s[0] == ' ' then [] else [s[0]]) + NonSpace(s[1..])
  }

  function Concat(lines: seq<Bytes>): Bytes
    decreases |lines|
  {
    if lines == [] then [] else lines[0] + Concat(lines[1..])
  }

  lemma {:induction false} NonSpaceAppend(a: Bytes, b: Bytes)
    ensures NonSpace(a + b) == NonSpace(a) + NonSpace(b)
    decreases |a|
  {
    if a != [] {
      assert (a + b)[1..] == a[1..] + b;
      NonSpaceAppend(a[1..], b);
    } else {
      assert a + b == b;
    }
  }

  /** As written, a comment of 101 letters without a space is drawn as one
      line of 100 letters: the 101st letter is lost. */
  lemma HardCutDropsByte()
    ensures var s := seq(101, _ => 'a');
      WrapLines(s) == [s[..LineWidth]] && |NonSpace(Concat(WrapLines(s)))| < |NonSpace(s)|
  {
    var s: Bytes := seq(101, _ => 'a');
    WrapHardCut(s);
    assert s[LineWidth + 1..] == [];
    var line := s[..LineWidth];
    assert Concat(WrapLines(s)) == line by {
      assert WrapLines(s) == [line];
      assert Concat([line]) == line + Concat([]);
    }
    assert s == line + [s[LineWidth]];
    NonSpaceAppend(line, [s[LineWidth]]);
    assert NonSpace([s[LineWidth]]) == ['a'] by {
      assert NonSpace([s[LineWidth]]) == ['a'] + NonSpace([]);
    }
  }

  /** The evidently intended loop step: on a hard cut the byte at index 100
      starts the next line instead of being skipped; a break at a space
      still consumes that space. */
  function WrapStepKeepingCut(s: Bytes): (r: (Bytes, Bytes))
    requires |s| > 0
    ensures |r.0| <= LineWidth && |r.1| < |s|
    ensures |s| <= LineWidth ==> r == (s, [])
    ensures |s| > LineWidth && |r.0| < LineWidth ==> s[|r.0|] == ' ' && s == r.0 + [' '] + r.1
    ensures |s| > LineWidth && |r.0| == LineWidth ==> s == r.0 + r.1
  {
    if |s| > LineWidth then
      var end := BreakAt(s);
      if end < LineWidth then
        assert s == s[..end] + [s[end]] + s[end + 1..];
        (s[..end], s[end + 1..])
      else (s[..LineWidth], s[LineWidth..])
    else (s, [])
  }

  function WrapLinesKeepingCut(s: Bytes): seq<Bytes>
    decreases |s|
  {
    if s == [] then [] else [WrapStepKeepingCut(s).0] + WrapLinesKeepingCut(WrapStepKeepingCut(s).1)
  }

  lemma NonSpaceDropsSpace(line: Bytes, rest: Bytes)
    ensures NonSpace(line + [' '] + rest) == NonSpace(line) + NonSpace(rest)
  {
    NonSpaceAppend(line + [' '], rest);
    NonSpaceAppend(line, [' ']);
    assert NonSpace([' ']) == [] + NonSpace([]);
  }

  /** One corrected step drops only the space it breaks at. */
  lemma KeepingCutStep(s: Bytes)
    requires |s| > 0
    ensures NonSpace(s) == NonSpace(WrapStepKeepingCut(s).0) + NonSpace(WrapStepKeepingCut(s).1)
  {
    var r := WrapStepKeepingCut(s);
    if |s| > LineWidth && |r.0| < LineWidth {
      NonSpaceDropsSpace(r.0, r.1);
    } else if |s| > LineWidth {
      NonSpaceAppend(r.0, r.1);
    } else {
      assert NonSpace(r.1) == [];
      assert s + [] == s;
    }
  }

  /** With the corrected cut no text is lost: the lines together hold every
      non-space byte of the comment, in order, and each is at most 100 bytes. */
  lemma {:induction false} KeepingCutLosesNoText(s: Bytes)
    ensures NonSpace(Concat(WrapLinesKeepingCut(s))) == NonSpace(s)
    ensures forall k :: 0 <= k < |WrapLinesKeepingCut(s)| ==> |WrapLinesKeepingCut(s)[k]| <= LineWidth
    decreases |s|
  {
    if s != [] {
      var (line, rest) := WrapStepKeepingCut(s);
      KeepingCutLosesNoText(rest);
      var lines := WrapLinesKeepingCut(s);
      assert lines == [line] + WrapLinesKeepingCut(rest);
      assert lines[1..] == WrapLinesKeepingCut(rest);
      assert Concat(lines) == line + Concat(WrapLinesKeepingCut(rest));
      NonSpaceAppend(line, Concat(WrapLinesKeepingCut(rest)));
      KeepingCutStep(s);
    }
  }
}
