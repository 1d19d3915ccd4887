/** Extraction of a commit message from the text of an email-style patch
    (`parse_commit_message_from_patch_file`, without the file read). */
module CommitMessage {
  import opened PyText

  datatype Option<T> = None | Some(value: T)

  const SubjectMarker: string := "Subject:"
  const EndMarker: string := "---"
  const PatchTag: string := "[PATCH]"

  /** The message as it stands when the line-break loop starts: the text
      between the end of the first `Subject:` and the first `---` (both
      searched from the start of the text), trimmed, with one leading
      `[PATCH]` tag removed and trimmed again. `None` when a marker is missing. */
  function Message(text: string): (r: Option<string>)
    ensures r.None? <==> !Contains(text, SubjectMarker) || !Contains(text, EndMarker)
    ensures r.Some? ==> NoOuterSpace(r.value)
  {
    FindAbsent(text, SubjectMarker);
    FindAbsent(text, EndMarker);
    var subject := Find(text, SubjectMarker, 0);
    var dashes := Find(text, EndMarker, 0);
    if subject == -1 || dashes == -1 then None
    else Some(Tidy(Slice(text, subject + |SubjectMarker|, dashes)))
  }

  /** The raw text between the markers, trimmed, with one leading `[PATCH]`
      tag removed and trimmed again. */
  function Tidy(raw: string): (r: string)
    ensures NoOuterSpace(r)
  {
    var m := Strip(raw);
    if StartsWith(m, PatchTag) then Strip(m[|PatchTag|..]) else m
  }

  /** `end_pos`: where the first blank line ("\n\n") of the message starts,
      or the length of the message when it has none. It is computed once,
      before any newline is removed. */
  function BreakBound(m: string): (e: nat)
    ensures e <= |m|
    ensures Contains(m, "\n\n") ==> OccursAt(m, "\n\n", e)
    ensures !Contains(m, "\n\n") ==> e == |m|
    ensures forall i :: 0 <= i < e ==> !OccursAt(m, "\n\n", i)
  {
    FindAbsent(m, "\n\n");
    var d := Find(m, "\n\n", 0);
    if d == -1 then |m| else d
  }

  /** The line-break loop, one character at a time. `done` is the part of the
      message the cursor has passed (its length is the cursor `lf_pos`),
      `rest` the part after the cursor and `bound` the fixed `end_pos`.
      Unwrap is the loop head: the loop goes on while the cursor is at most
      `bound`. */
  function Unwrap(rest: string, done: string, bound: nat): string
    decreases |rest|, 1
  {
    if |done| > bound then done + rest else Scan(rest, done, bound)
  }

  /** Scan moves the cursor to the next newline and handles it. A newline
      followed by a character other than a newline is deleted, and the cursor
      steps over that character; any other newline is kept and the cursor
      steps only past it. */
  function Scan(rest: string, done: string, bound: nat): string
    decreases |rest|, 0
  {
    if rest == [] then done
    else if rest[0] != '\n' then Scan(rest[1..], done + [rest[0]], bound)
    else if |rest| > 1 && rest[1] != '\n' then Unwrap(rest[2..], done + [rest[1]], bound)
    else Unwrap(rest[1..], done + ['\n'], bound)
  }

  /** What the line-break loop leaves of the message `m`. */
  function Collapse(m: string): string
  {
    Unwrap(m, [], BreakBound(m))
  }

  /** `r` is `t` with some of its newline characters deleted; every other
      character is kept, in order. */
  predicate DropsOnlyNewlines(t: string, r: string)
    decreases |t|
  {
    if t == [] then r == []
    else if r != [] && r[0] == t[0] && DropsOnlyNewlines(t[1..], r[1..]) then true
    else t[0] == '\n' && DropsOnlyNewlines(t[1..], r)
  }

  /** `s` without its newline characters. */
  function WithoutNewlines(s: string): (r: string)
    ensures |r| <= |s|
    ensures forall k :: 0 <= k < |r| ==> r[k] != '\n'
    decreases |s|
  {
    if s == [] then []
    else if s[0] == '\n' then WithoutNewlines(s[1..])
    else [s[0]] + WithoutNewlines(s[1..])
  }

  /** Removing the newlines keeps every other character, in order. */
  lemma {:induction false} WithoutNewlinesKeepsOthers(s: string)
    ensures DropsOnlyNewlines(s, WithoutNewlines(s))
    decreases |s|
  {
    if s != [] {
      WithoutNewlinesKeepsOthers(s[1..]);
      if s[0] != '\n' {
        assert WithoutNewlines(s)[1..] == WithoutNewlines(s[1..]);
      }
    }
  }

  /** The whole of `parse_commit_message_from_patch_file` after the file read. */
  method ParseCommitMessage(patchText: string) returns (result: Option<string>)
    ensures result.None? <==> !Contains(patchText, SubjectMarker) || !Contains(patchText, EndMarker)
    ensures result.Some? ==> Message(patchText).Some? && result.value == Collapse(Message(patchText).value)
    ensures result.Some? ==> NoOuterSpace(result.value)
    ensures result.Some? ==> DropsOnlyNewlines(Message(patchText).value, result.value)
  {
    var msgStart := Find(patchText, SubjectMarker, 0);
    var msgEnd := Find(patchText, EndMarker, 0);
    if msgStart == -1 || msgEnd == -1 {
      return None;
    }
    msgStart := msgStart + |SubjectMarker|;
    var msg := Slice(patchText, msgStart, msgEnd);
    assert Message(patchText) == Some(Tidy(msg));
    ghost var raw := msg;
    msg := Strip(msg);
    if StartsWith(msg, PatchTag) {
      msg := msg[|PatchTag|..];
      msg := Strip(msg);
    }
    assert msg == Tidy(raw);
    CollapseKeepsOuterCharacters(msg);
    msg := RemoveLineBreaks(msg);
    result := Some(msg);
  }

  /** Lines 20-31: the newline-deleting loop, run on the trimmed message. It
      stops at `end_pos`, measured before any deletion, or when no newline is
      left after the cursor; the cursor grows strictly at each turn. */
  method RemoveLineBreaks(trimmed: string) returns (msg: string)
    ensures msg == Collapse(trimmed)
  {
    msg := trimmed;
    var endPos := Find(msg, "\n\n", 0);
    if endPos == -1 {
      endPos := |msg|;
    }
    var lfPos := 0;
    ghost var done: string := [];
    ghost var rest: string := msg;
    while lfPos <= endPos
      invariant msg == done + rest && lfPos == |done|
      invariant Unwrap(rest, done, endPos) == Collapse(trimmed)
      decreases endPos - lfPos
    {
      lfPos := Find(msg, "\n", lfPos);
      if lfPos == -1 {
        ScanPastLastNewline(rest, done, endPos);
        break;
      }
      ghost var j := lfPos - |done|;
      OccursAtChar(msg, '\n', lfPos);
      assert forall k :: 0 <= k < j ==> rest[k] != '\n' by {
        forall k | 0 <= k < j ensures rest[k] != '\n' {
          OccursAtChar(msg, '\n', |done| + k);
        }
      }
      ScanSkip(rest, done, endPos, j);
      if lfPos + 1 < |msg| && msg[lfPos + 1] != '\n' {
        DeleteNewline(rest, done, endPos, j);
        msg := msg[..lfPos] + msg[lfPos + 1..];
        done, rest := done + rest[..j] + [rest[j + 1]], rest[j + 2..];
      } else {
        KeepNewline(rest, done, endPos, j);
        done, rest := done + rest[..j + 1], rest[j + 1..];
      }
      lfPos := lfPos + 1;
    }
  }

  /** At a newline followed by another character, the scan deletes the
      newline and steps over that character. */
  lemma DeleteNewline(rest: string, done: string, bound: nat, j: nat)
    requires j + 1 < |rest| && rest[j] == '\n' && rest[j + 1] != '\n'
    ensures Scan(rest[j..], done + rest[..j], bound)
         == Unwrap(rest[j + 2..], done + rest[..j] + [rest[j + 1]], bound)
    ensures (done + rest)[..|done| + j] + (done + rest)[|done| + j + 1..]
         == (done + rest[..j] + [rest[j + 1]]) + rest[j + 2..]
  {
    assert rest[j..][2..] == rest[j + 2..] && rest[j..][1] == rest[j + 1];
    assert rest[j + 1..] == [rest[j + 1]] + rest[j + 2..];
    assert (done + rest)[..|done| + j] == done + rest[..j];
    assert (done + rest)[|done| + j + 1..] == rest[j + 1..];
  }

  /** At a newline that ends the text or precedes another newline, the scan
      keeps it and steps past it. */
  lemma KeepNewline(rest: string, done: string, bound: nat, j: nat)
    requires j < |rest| && rest[j] == '\n' && !(j + 1 < |rest| && rest[j + 1] != '\n')
    ensures Scan(rest[j..], done + rest[..j], bound) == Unwrap(rest[j + 1..], done + rest[..j + 1], bound)
    ensures done + rest == (done + rest[..j + 1]) + rest[j + 1..]
  {
    var r := rest[j..];
    assert r[0] == '\n' && r[1..] == rest[j + 1..];
    assert |r| > 1 ==> r[1] == rest[j + 1];
    assert rest[..j + 1] == rest[..j] + ['\n'];
    assert (done + rest[..j]) + ['\n'] == done + rest[..j + 1];
    assert rest == rest[..j + 1] + rest[j + 1..];
  }

  /** With no newline after the cursor, the scan takes the rest unchanged. */
  lemma {:induction false} ScanPastLastNewline(rest: string, done: string, bound: nat)
    requires forall i :: |done| <= i ==> !OccursAt(done + rest, "\n", i)
    ensures Scan(rest, done, bound) == done + rest
    decreases |rest|
  {
    if rest != [] {
      OccursAtChar(done + rest, '\n', |done|);
      assert (done + [rest[0]]) + rest[1..] == done + rest;
      ScanPastLastNewline(rest[1..], done + [rest[0]], bound);
    }
  }

  /** Scanning passes over characters other than newlines unchanged. */
  lemma {:induction false} ScanSkip(rest: string, done: string, bound: nat, j: nat)
    requires j <= |rest|
    requires forall k :: 0 <= k < j ==> rest[k] != '\n'
    ensures Scan(rest, done, bound) == Scan(rest[j..], done + rest[..j], bound)
    decreases j
  {
    if j > 0 {
      assert rest[0] != '\n';
      ScanSkip(rest[1..], done + [rest[0]], bound, j - 1);
      assert rest[1..][j - 1..] == rest[j..];
      assert done + [rest[0]] + rest[1..][..j - 1] == done + rest[..j];
    } else {
      assert rest[0..] == rest && done + rest[..0] == done;
    }
  }

  /** The loop only deletes newlines, and it never touches what the cursor has passed. */
  lemma {:induction false} UnwrapDropsOnlyNewlines(rest: string, done: string, bound: nat)
    ensures |done| <= |Unwrap(rest, done, bound)|
    ensures Unwrap(rest, done, bound)[..|done|] == done
    ensures DropsOnlyNewlines(rest, Unwrap(rest, done, bound)[|done|..])
    decreases |rest|, 1
  {
    if |done| > bound {
      KeepsAll(rest);
      assert (done + rest)[|done|..] == rest;
    } else {
      ScanDropsOnlyNewlines(rest, done, bound);
    }
  }

  lemma {:induction false} ScanDropsOnlyNewlines(rest: string, done: string, bound: nat)
    ensures |done| <= |Scan(rest, done, bound)|
    ensures Scan(rest, done, bound)[..|done|] == done
    ensures DropsOnlyNewlines(rest, Scan(rest, done, bound)[|done|..])
    decreases |rest|, 0
  {
    var r := Scan(rest, done, bound);
    if rest == [] {
    } else if rest[0] != '\n' {
      ScanDropsOnlyNewlines(rest[1..], done + [rest[0]], bound);
      assert r[|done|..][0] == rest[0] && r[|done|..][1..] == r[|done| + 1..];
    } else if |rest| > 1 && rest[1] != '\n' {
      UnwrapDropsOnlyNewlines(rest[2..], done + [rest[1]], bound);
      var t := r[|done|..];
      assert t[0] == rest[1..][0] && t[1..] == r[|done| + 1..] && rest[1..][1..] == rest[2..];
      assert DropsOnlyNewlines(rest[1..], t);
    } else {
      UnwrapDropsOnlyNewlines(rest[1..], done + ['\n'], bound);
      assert r[|done|..][0] == rest[0] && r[|done|..][1..] == r[|done| + 1..];
    }
  }

  lemma {:induction false} KeepsAll(t: string)
    ensures DropsOnlyNewlines(t, t)
    decreases |t|
  {
    if t != [] {
      KeepsAll(t[1..]);
    }
  }

  /** Deleting only newlines keeps a first or last character that is not a newline. */
  lemma {:induction false} DropsOnlyNewlinesKeepsEnds(t: string, r: string)
    requires DropsOnlyNewlines(t, r)
    ensures t != [] && t[0] != '\n' ==> r != [] && r[0] == t[0]
    ensures t != [] && t[|t| - 1] != '\n' ==> r != [] && r[|r| - 1] == t[|t| - 1]
    decreases |t|
  {
    if t != [] && t[|t| - 1] != '\n' {
      if r != [] && r[0] == t[0] && DropsOnlyNewlines(t[1..], r[1..]) {
        if |t| > 1 {
          DropsOnlyNewlinesKeepsEnds(t[1..], r[1..]);
        }
      } else {
        DropsOnlyNewlinesKeepsEnds(t[1..], r);
      }
    }
  }

  /** Deleting only newlines leaves the other characters as they were, in order. */
  lemma {:induction false} DropsOnlyNewlinesKeepsText(t: string, r: string)
    requires DropsOnlyNewlines(t, r)
    ensures WithoutNewlines(r) == WithoutNewlines(t)
    decreases |t|
  {
    if t != [] {
      if r != [] && r[0] == t[0] && DropsOnlyNewlines(t[1..], r[1..]) {
        DropsOnlyNewlinesKeepsText(t[1..], r[1..]);
      } else {
        DropsOnlyNewlinesKeepsText(t[1..], r);
      }
    }
  }

  /** The loop deletes only newlines, so the result of a trimmed message is
      still trimmed and has the same characters other than newlines. */
  lemma CollapseKeepsOuterCharacters(m: string)
    ensures DropsOnlyNewlines(m, Collapse(m))
    ensures WithoutNewlines(Collapse(m)) == WithoutNewlines(m)
    ensures NoOuterSpace(m) ==> NoOuterSpace(Collapse(m))
  {
    UnwrapDropsOnlyNewlines(m, [], BreakBound(m));
    assert Collapse(m)[0..] == Collapse(m);
    DropsOnlyNewlinesKeepsEnds(m, Collapse(m));
    DropsOnlyNewlinesKeepsText(m, Collapse(m));
  }

  /** Without a blank line ahead, and with a last character that is not a
      newline, every newline after the cursor is deleted. */
  lemma {:induction false} ScanJoinsAllLines(rest: string, done: string, bound: nat)
    requires |done| + |rest| <= bound
    requires forall i :: 0 <= i < |rest| - 1 ==> !(rest[i] == '\n' && rest[i + 1] == '\n')
    requires rest == [] || rest[|rest| - 1] != '\n'
    ensures Scan(rest, done, bound) == done + WithoutNewlines(rest)
    decreases |rest|
  {
    if rest == [] {
    } else if rest[0] != '\n' {
      ScanJoinsAllLines(rest[1..], done + [rest[0]], bound);
    } else {
      assert |rest| > 1 && rest[1] != '\n';
      ScanJoinsAllLines(rest[2..], done + [rest[1]], bound);
      assert rest[1..][1..] == rest[2..];
    }
  }

  /** A trimmed message without a blank line comes out with every newline
      deleted: its lines are joined with nothing between them. */
  lemma CollapseJoinsAllLines(m: string)
    requires !Contains(m, "\n\n")
    requires NoOuterSpace(m)
    ensures Collapse(m) == WithoutNewlines(m)
    ensures forall k :: 0 <= k < |Collapse(m)| ==> Collapse(m)[k] != '\n'
  {
    forall i | 0 <= i < |m| - 1
      ensures !(m[i] == '\n' && m[i + 1] == '\n')
    {
      OccursAtPair(m, '\n', '\n', i);
    }
    ScanJoinsAllLines(m, [], BreakBound(m));
  }

  /** A blank line loses a newline when a newline was deleted before it: the
      deletion shifts the blank line left of `end_pos`, so after keeping the
      first newline of the pair the cursor lands on the second and deletes it. */
  lemma BlankLineLosesANewline()
    ensures Collapse("A\nB\n\nC") == "AB\nC"
  {
    var m := "A\nB\n\nC";
    OccursAtPair(m, '\n', '\n', 0);
    OccursAtPair(m, '\n', '\n', 1);
    OccursAtPair(m, '\n', '\n', 2);
    OccursAtPair(m, '\n', '\n', 3);
    assert BreakBound(m) == 3;
    assert Unwrap(m, [], 3) == Unwrap("\n\nC", "AB", 3);
    assert Unwrap("\n\nC", "AB", 3) == Unwrap("\nC", "AB\n", 3);
    assert Unwrap("\nC", "AB\n", 3) == Unwrap("", "AB\nC", 3);
  }

  /** A blank line right after a one-line subject survives: with no deletion
      before it, keeping its first newline moves the cursor past `end_pos`
      and the loop ends there, leaving the body untouched. */
  lemma BlankLineKeptAfterOneLineSubject()
    ensures Collapse("Fix\n\nBody") == "Fix\n\nBody"
  {
    var m := "Fix\n\nBody";
    OccursAtPair(m, '\n', '\n', 0);
    OccursAtPair(m, '\n', '\n', 1);
    OccursAtPair(m, '\n', '\n', 2);
    OccursAtPair(m, '\n', '\n', 3);
    assert BreakBound(m) == 3;
    assert Unwrap(m, [], 3) == Scan("\n\nBody", "Fix", 3);
    assert Scan("\n\nBody", "Fix", 3) == Unwrap("\nBody", "Fix\n", 3);
  }

  /** A message written between the two markers, with no `-` in it, is
      exactly what `Message` extracts: stripped, with a leading `[PATCH]`
      tag dropped. */
  lemma MessageBetweenMarkers(s: string)
    requires forall k :: 0 <= k < |s| ==> s[k] != '-'
    ensures Message(SubjectMarker + s + EndMarker) == Some(Tidy(s))
  {
    var text := SubjectMarker + s + EndMarker;
    var end := |SubjectMarker| + |s|;
    assert text[..|SubjectMarker|] == SubjectMarker;
    assert OccursAt(text, SubjectMarker, 0);
    assert text[end..end + |EndMarker|] == EndMarker;
    assert OccursAt(text, EndMarker, end);
    forall i | 0 <= i < end
      ensures !OccursAt(text, EndMarker, i)
    {
      if i < |SubjectMarker| {
        assert text[i] == SubjectMarker[i];
      } else {
        assert text[i] == s[i - |SubjectMarker|];
      }
      StartNotMatched(text, EndMarker, i);
    }
    assert Find(text, EndMarker, 0) == end;
    assert Find(text, SubjectMarker, 0) == 0;
    assert text[|SubjectMarker|..end] == s;
    assert Slice(text, |SubjectMarker|, end) == s;
  }

  /** When the first `---` starts before the end of the first `Subject:`,
      the slice is inverted and the message is empty. */
  lemma EndMarkerFirstGivesEmpty(text: string)
    requires Contains(text, SubjectMarker) && Contains(text, EndMarker)
    requires Find(text, EndMarker, 0) <= Find(text, SubjectMarker, 0) + |SubjectMarker|
    ensures Message(text) == Some([])
    ensures Collapse([]) == []
  {
    FindAbsent(text, SubjectMarker);
    FindAbsent(text, EndMarker);
  }
}
