/**
 * The argument parser of src/args.rs: the indentation finder, the bracket-depth
 * tokenizer and the region slicer. A line is a sequence of graphemes, each an
 * opaque string; an argument is the string its graphemes concatenate to.
 */
module Args {
  import opened Utils
  import opened App
  import opened Text

  // ---------------------------------------------------------------------------
  // Indentation: `first_not_whitespace` and `find_pos`
  // ---------------------------------------------------------------------------

  ghost predicate AllSpaces(line: seq<string>) {
    forall j :: 0 <= j < |line| ==> line[j] == " "
  }

  /** The first index at or after `from` whose grapheme is not a single ASCII space. */
  function FirstNotSpaceFrom(line: seq<string>, from: nat): (r: Option<nat>)
    requires from <= |line|
    ensures r.Some? ==> from <= r.value < |line| && line[r.value] != " " &&
                        forall j :: from <= j < r.value ==> line[j] == " "
    ensures r.None? <==> forall j :: from <= j < |line| ==> line[j] == " "
    decreases |line| - from
  {
    if from == |line| then None
    else if line[from] != " " then Some(from)
    else FirstNotSpaceFrom(line, from + 1)
  }

  /**
   * `first_not_whitespace`: the index of the first grapheme that is not `" "`
   * (a tab or any other blank counts as text), or none for a line of spaces.
   */
  function FirstNotWhitespace(line: seq<string>): (r: Option<nat>)
    ensures r.Some? ==> r.value < |line| && line[r.value] != " " &&
                        forall j :: 0 <= j < r.value ==> line[j] == " "
    ensures r.None? <==> AllSpaces(line)
  {
    FirstNotSpaceFrom(line, 0)
  }

  /**
   * `find_pos`: one position per line; line `i` sits at `begPos.line + i`, and
   * its column is one past the index of its first non-space grapheme. A line
   * of spaces (or an empty line) falls back to index 1, so its column is 2.
   */
  function FindPos(lines: seq<seq<string>>, begPos: Pos): (r: seq<Pos>)
    ensures |r| == |lines|
    ensures forall i :: 0 <= i < |lines| ==> r[i].line == begPos.line + i
    ensures forall i :: 0 <= i < |lines| && AllSpaces(lines[i]) ==> r[i].col == 2
    ensures forall i :: 0 <= i < |lines| && !AllSpaces(lines[i]) ==>
              1 <= r[i].col <= |lines[i]| && lines[i][r[i].col - 1] != " " &&
              forall j :: 0 <= j < r[i].col - 1 ==> lines[i][j] == " "
  {
    seq(|lines|, i requires 0 <= i < |lines| =>
      var n := match FirstNotWhitespace(lines[i]) case Some(n) => n case None => 1;
      New(i + begPos.Line(), n + 1))
  }

  // ---------------------------------------------------------------------------
  // The tokenizer's stack of open buffers and its helpers
  // ---------------------------------------------------------------------------

  /** One entry of the nesting stack: the kind that opened it and the text gathered since. */
  datatype Buf = Buf(kind: BPair, text: string)

  /** The kinds on the stack, bottom first. */
  function KindsOf(bufs: seq<Buf>): seq<BPair> {
    seq(|bufs|, i requires 0 <= i < |bufs| => bufs[i].kind)
  }

  lemma KindsOfPrefix(bufs: seq<Buf>, n: nat)
    requires n <= |bufs|
    ensures KindsOf(bufs[..n]) == KindsOf(bufs)[..n]
  {
    var a, b := KindsOf(bufs[..n]), KindsOf(bufs)[..n];
    assert |a| == |b|;
    forall i | 0 <= i < n ensures a[i] == b[i] {
      assert bufs[..n][i] == bufs[i];
    }
  }

  /** The text held by the open buffers, bottom first. */
  function Pending(bufs: seq<Buf>): string {
    if |bufs| == 0 then "" else Pending(bufs[..|bufs| - 1]) + bufs[|bufs| - 1].text
  }

  lemma PendingSnoc(bufs: seq<Buf>, b: Buf)
    ensures Pending(bufs + [b]) == Pending(bufs) + b.text
  {
    assert (bufs + [b])[..|bufs|] == bufs;
  }

  /** The first kind in `kinds` whose opening glyph is `ch`. */
  function OpenKindIn(ch: string, kinds: seq<BPair>): (r: Option<BPair>)
    ensures r.Some? ==> r.value in kinds && r.value.ToSimpleStringOpen() == ch
    ensures r.None? ==> forall k :: k in kinds ==> k.ToSimpleStringOpen() != ch
  {
    if |kinds| == 0 then None
    else if ch == kinds[0].ToSimpleStringOpen() then Some(kinds[0])
    else OpenKindIn(ch, kinds[1..])
  }

  /** `ch_is_open_bpair`: the kind whose opening glyph is `ch`, if there is one. */
  function ChIsOpenBPair(ch: string): (r: Option<BPair>)
    ensures forall k: BPair :: r == Some(k) <==> ch == k.ToSimpleStringOpen()
    ensures r.None? <==> ch != "[" && ch != "(" && ch != "{"
  {
    var r := OpenKindIn(ch, Array());
    assert forall k: BPair :: k.ToSimpleStringOpen() == ch ==> k in Array();
    r
  }

  /**
   * `ch_is_close_bpair`: whether `ch` is the closing glyph of `kind`. A
   * grapheme that passes is no opening glyph, and closes no other kind.
   */
  predicate ChIsCloseBPair(ch: string, kind: BPair): (r: bool)
    ensures r ==> ChIsOpenBPair(ch).None?
    ensures r ==> forall k: BPair :: k.ToSimpleStringClose() == ch ==> k == kind
    ensures r <==> (ch == "]" && kind == Brack) || (ch == ")" && kind == Paren) || (ch == "}" && kind == Curly)
  {
    kind.ToSimpleStringClose() == ch
  }

  /** `new_buf`: open a buffer of the given kind, seeded with its glyph. */
  function NewBuf(bufs: seq<Buf>, kind: BPair, ch: string): (r: seq<Buf>)
    ensures KindsOf(r) == KindsOf(bufs) + [kind]
    ensures Pending(r) == Pending(bufs) + ch
    ensures r[..|bufs|] == bufs && r[|bufs|].text == ch
  {
    PendingSnoc(bufs, Buf(kind, ch));
    bufs + [Buf(kind, ch)]
  }

  /**
   * `add_char_2_last_buf`: append to the text of the top buffer. The Rust
   * helper pops with `unwrap`, so it needs a non-empty stack.
   */
  function AddCharToLastBuf(bufs: seq<Buf>, chars: string): (r: seq<Buf>)
    requires |bufs| > 0
    ensures KindsOf(r) == KindsOf(bufs)
    ensures Pending(r) == Pending(bufs) + chars
    ensures |r| == |bufs| && r[..|bufs| - 1] == bufs[..|bufs| - 1]
    ensures r[|bufs| - 1].text == bufs[|bufs| - 1].text + chars
  {
    var rest, top := bufs[..|bufs| - 1], bufs[|bufs| - 1];
    LastSplit(bufs);
    PendingSnoc(rest, top);
    PendingSnoc(rest, Buf(top.kind, top.text + chars));
    rest + [Buf(top.kind, top.text + chars)]
  }

  /**
   * `close_buf`: pop the top buffer, append the closing glyph to it, and add
   * its text to the new top buffer, or to the current argument when the stack
   * has become empty. Needs a non-empty stack (the Rust pop is unwrapped).
   * Returns the new stack and the new current argument.
   */
  function CloseBuf(bufs: seq<Buf>, arg: string, ch: string): (r: (seq<Buf>, string))
    requires |bufs| > 0
    ensures KindsOf(r.0) == KindsOf(bufs)[..|bufs| - 1]
    ensures r.1 + Pending(r.0) == arg + Pending(bufs) + ch
    ensures |bufs| == 1 ==> r.1 == arg + bufs[0].text + ch && r.0 == []
    ensures |bufs| > 1 ==> r.1 == arg
    ensures |bufs| > 1 ==>
              r.0 == bufs[..|bufs| - 2] + [Buf(bufs[|bufs| - 2].kind, bufs[|bufs| - 2].text + bufs[|bufs| - 1].text + ch)]
  {
    var rest, top := bufs[..|bufs| - 1], bufs[|bufs| - 1];
    assert Pending(bufs) == Pending(rest) + top.text;
    KindsOfPrefix(bufs, |bufs| - 1);
    var chars := top.text + ch;
    if |rest| == 0 then
      assert Pending(rest) == "" && "" + top.text == top.text;
      assert arg + chars + "" == arg + chars;
      ConcatAssoc(arg, top.text, ch);
      (rest, arg + chars)
    else
      ConcatAssoc(Pending(rest), top.text, ch);
      ConcatAssoc(arg, Pending(rest) + top.text, ch);
      var r := AddCharToLastBuf(rest, chars);
      MergeIntoTop(rest, r, chars);
      assert rest[..|rest| - 1] == bufs[..|bufs| - 2] && rest[|rest| - 1] == bufs[|bufs| - 2];
      ConcatAssoc(rest[|rest| - 1].text, top.text, ch);
      (r, arg)
  }

  /** A stack that differs from `rest` only by `chars` appended to its top text. */
  lemma MergeIntoTop(rest: seq<Buf>, r: seq<Buf>, chars: string)
    requires |rest| > 0 && |r| == |rest| && r[..|rest| - 1] == rest[..|rest| - 1]
    requires KindsOf(r) == KindsOf(rest) && r[|rest| - 1].text == rest[|rest| - 1].text + chars
    ensures r == rest[..|rest| - 1] + [Buf(rest[|rest| - 1].kind, rest[|rest| - 1].text + chars)]
  {
    var n := |rest| - 1;
    assert r[n].kind == KindsOf(r)[n] == KindsOf(rest)[n] == rest[n].kind;
    LastSplit(r);
  }

  // ---------------------------------------------------------------------------
  // The tokenizer as a state machine: one step per grapheme
  // ---------------------------------------------------------------------------

  /** The loop state of `reprocessed_args`: finished arguments, the current one, and the stack. */
  datatype Tokenizer = Tokenizer(parsed: seq<string>, cur: string, bufs: seq<Buf>)

  const Start: Tokenizer := Tokenizer([], "", [])

  /**
   * One iteration of the loop in `reprocessed_args`. It never revises a
   * finished argument, and it finishes one exactly on a comma read with no
   * bracket open.
   */
  function Step(t: Tokenizer, ch: string): (r: Tokenizer)
    ensures t.parsed <= r.parsed
    ensures |r.parsed| == |t.parsed| + (if ch == "," && |t.bufs| == 0 then 1 else 0)
  {
    match ChIsOpenBPair(ch)
    case Some(kind) => t.(bufs := NewBuf(t.bufs, kind, ch))
    case None =>
      if |t.bufs| == 0 then
        if ch == "," then Tokenizer(t.parsed + [t.cur], "", t.bufs)
        else t.(cur := t.cur + ch)
      else if ChIsCloseBPair(ch, t.bufs[|t.bufs| - 1].kind) then
        var (bufs', cur') := CloseBuf(t.bufs, t.cur, ch);
        Tokenizer(t.parsed, cur', bufs')
      else t.(bufs := AddCharToLastBuf(t.bufs, ch))
  }

  /**
   * The state after the loop has consumed `chars`: one more grapheme only
   * adds finished arguments, never more than one per grapheme.
   */
  function Run(chars: seq<string>): (r: Tokenizer)
    ensures |r.parsed| <= |chars|
    ensures |chars| > 0 ==> Run(chars[..|chars| - 1]).parsed <= r.parsed
  {
    if |chars| == 0 then Start else Step(Run(chars[..|chars| - 1]), chars[|chars| - 1])
  }

  lemma RunSnoc(chars: seq<string>, ch: string)
    ensures Run(chars + [ch]) == Step(Run(chars), ch)
  {
    SnocPrefix(chars, ch);
  }

  /**
   * The untrimmed arguments: the finished ones, then the trailing argument
   * only when it is not empty.
   */
  function RawArgs(chars: seq<string>): (r: seq<string>)
    ensures Run(chars).parsed <= r && |r| <= |Run(chars).parsed| + 1
    ensures |r| > |Run(chars).parsed| <==> Run(chars).cur != ""
    ensures |r| > |Run(chars).parsed| ==> r[|r| - 1] == Run(chars).cur
  {
    var t := Run(chars);
    if t.cur != "" then t.parsed + [t.cur] else t.parsed
  }

  function TrimAll(ss: seq<string>): seq<string> {
    seq(|ss|, i requires 0 <= i < |ss| => Trim(ss[i]))
  }

  /**
   * What `reprocessed_args` returns for `chars`: one argument per top-level
   * comma, plus at most one trailing argument.
   */
  function Tokenize(chars: seq<string>): (r: seq<string>)
    ensures TopCommas(chars) <= |r| <= TopCommas(chars) + 1
  {
    RunAgrees(chars);
    TrimAll(RawArgs(chars))
  }

  // ---------------------------------------------------------------------------
  // A reference for nesting depth that ignores the text
  // ---------------------------------------------------------------------------

  /** How one grapheme changes the stack of open kinds. */
  function KindStep(kinds: seq<BPair>, ch: string): seq<BPair> {
    match ChIsOpenBPair(ch)
    case Some(kind) => kinds + [kind]
    case None =>
      if |kinds| > 0 && ch == kinds[|kinds| - 1].ToSimpleStringClose() then kinds[..|kinds| - 1]
      else kinds
  }

  /** The kinds still open after `chars`, innermost last. */
  function Kinds(chars: seq<string>): seq<BPair> {
    if |chars| == 0 then [] else KindStep(Kinds(chars[..|chars| - 1]), chars[|chars| - 1])
  }

  /** A comma at position i of `chars` that no open bracket encloses. */
  predicate IsTopComma(chars: seq<string>, i: nat)
    requires i < |chars|
  {
    chars[i] == "," && Kinds(chars[..i]) == []
  }

  /** The number of top-level commas in `chars`. */
  function TopCommas(chars: seq<string>): nat {
    if |chars| == 0 then 0
    else TopCommas(chars[..|chars| - 1]) + (if IsTopComma(chars, |chars| - 1) then 1 else 0)
  }

  /** `chars` with every top-level comma removed. */
  function DropTopCommas(chars: seq<string>): seq<string> {
    if |chars| == 0 then []
    else DropTopCommas(chars[..|chars| - 1]) + (if IsTopComma(chars, |chars| - 1) then [] else [chars[|chars| - 1]])
  }

  /**
   * The input cut at its top-level commas: entry `i` is the text between the
   * `i`-th and the next top-level comma (the first runs from the start, the
   * last to the end), without the commas themselves.
   */
  function Segments(chars: seq<string>): (r: seq<string>)
    ensures |r| == TopCommas(chars) + 1
  {
    if |chars| == 0 then [""]
    else
      var s, ch := Segments(chars[..|chars| - 1]), chars[|chars| - 1];
      if IsTopComma(chars, |chars| - 1) then s + [""] else s[..|s| - 1] + [s[|s| - 1] + ch]
  }

  /**
   * What the loop state keeps invariant: its stack holds exactly the kinds the
   * reference says are open, it has split once per top-level comma, and the
   * finished arguments, the current one and the open buffers together hold
   * every grapheme read so far except the top-level commas, in order.
   */
  ghost predicate Agrees(t: Tokenizer, chars: seq<string>) {
    && KindsOf(t.bufs) == Kinds(chars)
    && |t.parsed| == TopCommas(chars)
    && Flatten(t.parsed) + t.cur + Pending(t.bufs) == Flatten(DropTopCommas(chars))
  }

  /** On the stack, one step does what `KindStep` does. */
  lemma StepKinds(t: Tokenizer, ch: string)
    ensures KindsOf(Step(t, ch).bufs) == KindStep(KindsOf(t.bufs), ch)
  {
    var ks := KindsOf(t.bufs);
    assert |ks| == |t.bufs|;
    match ChIsOpenBPair(ch)
    case Some(kind) =>
    case None =>
      if |t.bufs| > 0 {
        var top := t.bufs[|t.bufs| - 1];
        assert ks[|ks| - 1] == top.kind;
        if ChIsCloseBPair(ch, top.kind) {
          assert KindStep(ks, ch) == ks[..|ks| - 1];
        } else {
          assert KindStep(ks, ch) == ks;
        }
      }
  }

  /** A step keeps every grapheme it reads, except a comma read at the top level. */
  lemma StepText(t: Tokenizer, ch: string)
    ensures var t' := Step(t, ch);
      Flatten(t'.parsed) + t'.cur + Pending(t'.bufs) ==
      Flatten(t.parsed) + t.cur + Pending(t.bufs) + (if ch == "," && |t.bufs| == 0 then "" else ch)
  {
    var f, c, p := Flatten(t.parsed), t.cur, Pending(t.bufs);
    var t' := Step(t, ch);
    match ChIsOpenBPair(ch)
    case Some(kind) =>
      ConcatAssoc(f + c, p, ch);
    case None =>
      if |t.bufs| == 0 {
        assert p == "";
        assert f + c + p == f + c;
        if ch == "," {
          FlattenSnoc(t.parsed, t.cur);
          assert f + c + p + "" == f + c;
          assert t' == Tokenizer(t.parsed + [c], "", []);
          assert Flatten(t'.parsed) + t'.cur == f + c;
        } else {
          assert t' == Tokenizer(t.parsed, c + ch, []);
          assert f + (c + ch) + "" == f + (c + ch);
          ConcatAssoc(f, c, ch);
        }
      } else if ChIsCloseBPair(ch, t.bufs[|t.bufs| - 1].kind) {
        var r := CloseBuf(t.bufs, t.cur, ch);
        assert t'.cur == r.1 && t'.bufs == r.0 && t'.parsed == t.parsed;
        ConcatAssoc(f, r.1, Pending(r.0));
        ConcatAssoc(f, c + p, ch);
        ConcatAssoc(f, c, p);
      } else {
        ConcatAssoc(f + c, p, ch);
      }
  }

  /** Reading one more grapheme unfolds the reference definitions by one step. */
  lemma ReferenceSnoc(chars: seq<string>, ch: string)
    ensures Kinds(chars + [ch]) == KindStep(Kinds(chars), ch)
    ensures IsTopComma(chars + [ch], |chars|) <==> ch == "," && Kinds(chars) == []
  {
    assert (chars + [ch])[..|chars|] == chars;
  }

  lemma TopCommasSnoc(chars: seq<string>, ch: string)
    ensures TopCommas(chars + [ch]) == TopCommas(chars) + (if ch == "," && Kinds(chars) == [] then 1 else 0)
  {
    ReferenceSnoc(chars, ch);
    assert (chars + [ch])[..|chars|] == chars;
  }

  lemma DropTopCommasSnoc(chars: seq<string>, ch: string)
    ensures Flatten(DropTopCommas(chars + [ch])) ==
            Flatten(DropTopCommas(chars)) + (if ch == "," && Kinds(chars) == [] then "" else ch)
  {
    var all := chars + [ch];
    ReferenceSnoc(chars, ch);
    assert all[..|chars|] == chars;
    if IsTopComma(all, |chars|) {
      assert DropTopCommas(all) == DropTopCommas(chars) + [];
      assert DropTopCommas(chars) + [] == DropTopCommas(chars);
      assert Flatten(DropTopCommas(chars)) + "" == Flatten(DropTopCommas(chars));
    } else {
      assert DropTopCommas(all) == DropTopCommas(chars) + [ch];
      FlattenSnoc(DropTopCommas(chars), ch);
    }
  }

  lemma StepAgrees(t: Tokenizer, chars: seq<string>, ch: string)
    requires Agrees(t, chars)
    ensures Agrees(Step(t, ch), chars + [ch])
  {
    StepKinds(t, ch);
    StepText(t, ch);
    ReferenceSnoc(chars, ch);
    TopCommasSnoc(chars, ch);
    DropTopCommasSnoc(chars, ch);
    assert |KindsOf(t.bufs)| == |t.bufs|;
    assert (Kinds(chars) == []) <==> |t.bufs| == 0;
  }

  /** The tokenizer's loop state agrees with the reference after any input. */
  lemma {:induction false} RunAgrees(chars: seq<string>)
    ensures Agrees(Run(chars), chars)
  {
    if |chars| > 0 {
      var prefix, ch := chars[..|chars| - 1], chars[|chars| - 1];
      LastSplit(chars);
      RunAgrees(prefix);
      StepAgrees(Run(prefix), prefix, ch);
      RunSnoc(prefix, ch);
    }
  }

  /**
   * Locally, a step either finishes the current argument (a comma read with no
   * bracket open) or appends the grapheme to the text not yet finished.
   */
  lemma StepSegment(t: Tokenizer, ch: string)
    ensures var t' := Step(t, ch);
      if ch == "," && |t.bufs| == 0 then t' == Tokenizer(t.parsed + [t.cur], "", [])
      else t'.parsed == t.parsed && t'.cur + Pending(t'.bufs) == t.cur + Pending(t.bufs) + ch
  {
    var t' := Step(t, ch);
    match ChIsOpenBPair(ch)
    case Some(kind) =>
      ConcatAssoc(t.cur, Pending(t.bufs), ch);
    case None =>
      if |t.bufs| == 0 {
        assert Pending(t.bufs) == "";
        if ch != "," {
          assert t'.cur + "" == t.cur + ch && t.cur + "" == t.cur;
          assert t'.bufs == [];
        }
      } else if ChIsCloseBPair(ch, t.bufs[|t.bufs| - 1].kind) {
        var r := CloseBuf(t.bufs, t.cur, ch);
        assert t'.cur == r.1 && t'.bufs == r.0;
      } else {
        ConcatAssoc(t.cur, Pending(t.bufs), ch);
      }
  }

  /**
   * The finished arguments are the input's segments but the last, and the
   * current argument followed by the open buffers' text is the last segment.
   */
  lemma {:induction false} RunSegments(chars: seq<string>)
    ensures var s, t := Segments(chars), Run(chars);
      t.parsed == s[..|s| - 1] && t.cur + Pending(t.bufs) == s[|s| - 1]
  {
    if |chars| > 0 {
      var prefix, ch := chars[..|chars| - 1], chars[|chars| - 1];
      var s, t := Segments(prefix), Run(prefix);
      LastSplit(chars);
      RunSegments(prefix);
      RunSnoc(prefix, ch);
      StepSegment(t, ch);
      StackFollowsKinds(prefix);
      ReferenceSnoc(prefix, ch);
      LastSplit(s);
      if IsTopComma(chars, |chars| - 1) {
        SnocPrefix(s, "");
        assert Pending(t.bufs) == "" && t.cur + "" == t.cur;
      } else {
        SnocPrefix(s[..|s| - 1], s[|s| - 1] + ch);
      }
    }
  }

  // ---------------------------------------------------------------------------
  // What the tokenizer promises
  // ---------------------------------------------------------------------------

  /**
   * The stack never underflows and follows the reference depth: the loop only
   * pops a non-empty stack (the helpers' requires), and after any input the
   * open kinds are those of `Kinds`.
   */
  lemma StackFollowsKinds(chars: seq<string>)
    ensures KindsOf(Run(chars).bufs) == Kinds(chars)
    ensures |Run(chars).bufs| == |Kinds(chars)|
  {
    RunAgrees(chars);
  }

  /**
   * Conservation: the untrimmed arguments, followed by the text still in
   * unclosed buffers, are exactly the input with its top-level commas removed.
   * So text left in an unclosed buffer at the end belongs to no argument.
   */
  lemma Conservation(chars: seq<string>)
    ensures Flatten(RawArgs(chars)) + Pending(Run(chars).bufs) == Flatten(DropTopCommas(chars))
  {
    var t := Run(chars);
    RunAgrees(chars);
    if t.cur != "" {
      FlattenSnoc(t.parsed, t.cur);
    }
  }

  /** For input that closes every bracket it opens, nothing but the top-level commas is lost. */
  lemma BalancedConservation(chars: seq<string>)
    requires Kinds(chars) == []
    ensures Flatten(RawArgs(chars)) == Flatten(DropTopCommas(chars))
  {
    Conservation(chars);
    StackFollowsKinds(chars);
    assert Run(chars).bufs == [];
  }

  /**
   * One argument per top-level comma, plus one more when the text after the
   * last top-level comma is not empty; no input at all gives no arguments.
   */
  lemma ArgumentCount(chars: seq<string>)
    ensures |Tokenize(chars)| == TopCommas(chars) + (if Run(chars).cur != "" then 1 else 0)
    ensures Kinds(chars) == [] ==>
              |Tokenize(chars)| == TopCommas(chars) + (if Segments(chars)[TopCommas(chars)] != "" then 1 else 0)
    ensures chars == [] ==> Tokenize(chars) == []
  {
    RunAgrees(chars);
    if Kinds(chars) == [] {
      BalancedArguments(chars);
    }
  }

  /**
   * For input that closes every bracket it opens, the untrimmed arguments are
   * exactly the segments between top-level commas, with a trailing empty
   * segment dropped, and the result is their trims.
   */
  lemma BalancedArguments(chars: seq<string>)
    requires Kinds(chars) == []
    ensures var s := Segments(chars);
      && RawArgs(chars) == (if s[|s| - 1] != "" then s else s[..|s| - 1])
      && Tokenize(chars) == TrimAll(if s[|s| - 1] != "" then s else s[..|s| - 1])
  {
    var s, t := Segments(chars), Run(chars);
    RunSegments(chars);
    StackFollowsKinds(chars);
    assert t.bufs == [] && Pending(t.bufs) == "";
    assert t.cur + "" == t.cur;
    LastSplit(s);
  }

  /** Every returned argument is the trim of its accumulated text, so none starts or ends with whitespace. */
  lemma ArgumentsTrimmed(chars: seq<string>)
    ensures |Tokenize(chars)| == |RawArgs(chars)|
    ensures forall i :: 0 <= i < |Tokenize(chars)| ==> Tokenize(chars)[i] == Trim(RawArgs(chars)[i])
    ensures forall i :: 0 <= i < |Tokenize(chars)| ==>
              var a := Tokenize(chars)[i]; a == [] || (!IsWhitespace(a[0]) && !IsWhitespace(a[|a| - 1]))
  {
    TrimAllTrims(RawArgs(chars));
  }

  /** Each entry of `TrimAll(ss)` is the trim of the matching entry of `ss`. */
  lemma TrimAllTrims(ss: seq<string>)
    ensures |TrimAll(ss)| == |ss|
    ensures forall i :: 0 <= i < |ss| ==> TrimAll(ss)[i] == Trim(ss[i])
    ensures forall i :: 0 <= i < |ss| ==>
              var a := TrimAll(ss)[i]; a == [] || (!IsWhitespace(a[0]) && !IsWhitespace(a[|a| - 1]))
  {
    forall i | 0 <= i < |ss|
      ensures var a := TrimAll(ss)[i]; a == [] || (!IsWhitespace(a[0]) && !IsWhitespace(a[|a| - 1]))
    {
      var a := Trim(ss[i]);
      assert TrimAll(ss)[i] == a;
    }
  }

  /**
   * A top-level comma closes the current argument, even an empty one, and
   * starts a fresh one; a comma inside a bracket goes to the top buffer and
   * splits nothing.
   */
  lemma StepComma(t: Tokenizer)
    ensures |t.bufs| == 0 ==> Step(t, ",") == Tokenizer(t.parsed + [t.cur], "", [])
    ensures |t.bufs| > 0 ==> Step(t, ",").parsed == t.parsed && Step(t, ",").cur == t.cur &&
                             Step(t, ",").bufs == AddCharToLastBuf(t.bufs, ",")
  {
  }

  /** An opening glyph pushes a buffer of its kind seeded with the glyph, at any depth and inside any kind. */
  lemma StepOpen(t: Tokenizer, kind: BPair)
    ensures Step(t, kind.ToSimpleStringOpen()) ==
            t.(bufs := t.bufs + [Buf(kind, kind.ToSimpleStringOpen())])
  {
    GlyphsDistinct(kind, kind);
  }

  /**
   * Only the closing glyph of the top buffer's kind closes anything: it pops
   * that buffer and merges its text, glyph included, into the buffer below or
   * into the current argument. Any other closer is plain text: in the top
   * buffer when one is open, in the current argument when none is.
   */
  lemma StepClose(t: Tokenizer, kind: BPair)
    ensures var ch := kind.ToSimpleStringClose();
      && (|t.bufs| == 0 ==> Step(t, ch) == t.(cur := t.cur + ch))
      && (|t.bufs| > 0 && t.bufs[|t.bufs| - 1].kind == kind ==>
            Step(t, ch).parsed == t.parsed &&
            (Step(t, ch).bufs, Step(t, ch).cur) == CloseBuf(t.bufs, t.cur, ch) &&
            |Step(t, ch).bufs| == |t.bufs| - 1)
      && (|t.bufs| > 0 && t.bufs[|t.bufs| - 1].kind != kind ==>
            Step(t, ch) == t.(bufs := AddCharToLastBuf(t.bufs, ch)))
  {
    var ch := kind.ToSimpleStringClose();
    assert ChIsOpenBPair(ch) == None by {
      forall k: BPair ensures ch != k.ToSimpleStringOpen() { GlyphsDistinct(k, kind); }
    }
    if |t.bufs| > 0 {
      assert ChIsCloseBPair(ch, t.bufs[|t.bufs| - 1].kind) <==> t.bufs[|t.bufs| - 1].kind == kind by {
        GlyphsDistinct(kind, t.bufs[|t.bufs| - 1].kind);
      }
      assert |KindsOf(Step(t, ch).bufs)| == |Step(t, ch).bufs|;
    }
  }

  /** Inside a bracket a step never splits, and changes the current argument only by closing the last bracket. */
  lemma StepInside(t: Tokenizer, ch: string)
    requires t.bufs != []
    ensures Step(t, ch).parsed == t.parsed
    ensures Step(t, ch).cur == t.cur || Step(t, ch).bufs == []
  {
    if ChIsOpenBPair(ch).None? && ChIsCloseBPair(ch, t.bufs[|t.bufs| - 1].kind) {
      var r := CloseBuf(t.bufs, t.cur, ch);
      assert |KindsOf(r.0)| == |r.0|;
    }
  }

  /**
   * While some bracket stays open, the finished arguments and the current
   * argument do not change: everything read goes to the stack, commas
   * included.
   */
  lemma {:induction false} OpenKeepsArgs(pre: seq<string>, rest: seq<string>)
    requires forall j :: 0 <= j <= |rest| ==> Kinds(pre + rest[..j]) != []
    ensures Run(pre + rest).parsed == Run(pre).parsed
    ensures Run(pre + rest).cur == Run(pre).cur
    ensures Run(pre + rest).bufs != []
  {
    if |rest| == 0 {
      assert pre + rest[..0] == pre;
      StackFollowsKinds(pre);
      assert pre + rest == pre;
    } else {
      var rest', ch := rest[..|rest| - 1], rest[|rest| - 1];
      OpenDropLast(pre, rest, rest');
      OpenKeepsArgs(pre, rest');
      StaysInside(pre + rest', ch);
    }
  }

  /** The bracket stays open over every prefix of `rest` minus its last grapheme, and over the step to `rest`. */
  lemma OpenDropLast(pre: seq<string>, rest: seq<string>, rest': seq<string>)
    requires |rest| > 0 && rest' == rest[..|rest| - 1]
    requires forall j :: 0 <= j <= |rest| ==> Kinds(pre + rest[..j]) != []
    ensures forall j :: 0 <= j <= |rest'| ==> Kinds(pre + rest'[..j]) != []
    ensures pre + rest == pre + rest' + [rest[|rest| - 1]]
    ensures Kinds(pre + rest' + [rest[|rest| - 1]]) != []
  {
    var ch := rest[|rest| - 1];
    forall j | 0 <= j <= |rest'| ensures Kinds(pre + rest'[..j]) != [] {
      assert rest'[..j] == rest[..j];
    }
    LastSplit(rest);
    ConcatAssoc(pre, rest', [ch]);
  }

  /** A step that leaves a bracket open keeps the arguments. */
  lemma StaysInside(before: seq<string>, ch: string)
    requires Run(before).bufs != [] && Kinds(before + [ch]) != []
    ensures Run(before + [ch]).parsed == Run(before).parsed
    ensures Run(before + [ch]).cur == Run(before).cur
    ensures Run(before + [ch]).bufs != []
  {
    RunSnoc(before, ch);
    StepInside(Run(before), ch);
    StackFollowsKinds(before + [ch]);
  }

  /**
   * While a bracket opened at the top level stays open, the finished
   * arguments and the current argument are those from before the bracket.
   */
  lemma InsideBracketKeepsArgs(chars: seq<string>, kind: BPair, rest: seq<string>)
    requires Run(chars).bufs == []
    requires forall j :: 0 <= j <= |rest| ==> Kinds(chars + [kind.ToSimpleStringOpen()] + rest[..j]) != []
    ensures var t := Run(chars + [kind.ToSimpleStringOpen()] + rest);
      t.parsed == Run(chars).parsed && t.cur == Run(chars).cur && t.bufs != []
  {
    var open := kind.ToSimpleStringOpen();
    RunSnoc(chars, open);
    StepOpen(Run(chars), kind);
    OpenKeepsArgs(chars + [open], rest);
  }

  /**
   * A bracket opened at the top level and never closed adds nothing to the
   * result: neither its text nor the commas inside it reach any argument.
   */
  lemma UnclosedBracketDropped(chars: seq<string>, kind: BPair, rest: seq<string>)
    requires Run(chars).bufs == []
    requires forall j :: 0 <= j <= |rest| ==> Kinds(chars + [kind.ToSimpleStringOpen()] + rest[..j]) != []
    ensures Tokenize(chars + [kind.ToSimpleStringOpen()] + rest) == Tokenize(chars)
  {
    InsideBracketKeepsArgs(chars, kind, rest);
  }

  /** No comma inside a bracket that stays open is a top-level comma. */
  lemma {:induction false} NoTopCommaInside(chars: seq<string>, kind: BPair, rest: seq<string>)
    requires forall j :: 0 <= j <= |rest| ==> Kinds(chars + [kind.ToSimpleStringOpen()] + rest[..j]) != []
    ensures DropTopCommas(chars + [kind.ToSimpleStringOpen()] + rest) ==
            DropTopCommas(chars) + [kind.ToSimpleStringOpen()] + rest
  {
    var open := kind.ToSimpleStringOpen();
    if |rest| == 0 {
      assert chars + [open] + rest == chars + [open];
      assert (chars + [open])[..|chars|] == chars;
    } else {
      var rest', ch := rest[..|rest| - 1], rest[|rest| - 1];
      forall j | 0 <= j <= |rest'| ensures Kinds(chars + [open] + rest'[..j]) != [] {
        assert rest'[..j] == rest[..j];
      }
      NoTopCommaInside(chars, kind, rest');
      var before := chars + [open] + rest';
      LastSplit(rest);
      ConcatAssoc(chars + [open], rest', [ch]);
      SnocPrefix(before, ch);
    }
  }

  lemma FlattenDropInside(chars: seq<string>, kind: BPair, rest: seq<string>)
    requires forall j :: 0 <= j <= |rest| ==> Kinds(chars + [kind.ToSimpleStringOpen()] + rest[..j]) != []
    ensures Flatten(DropTopCommas(chars + [kind.ToSimpleStringOpen()] + rest)) ==
            Flatten(DropTopCommas(chars)) + kind.ToSimpleStringOpen() + Flatten(rest)
  {
    var d, open := DropTopCommas(chars), kind.ToSimpleStringOpen();
    NoTopCommaInside(chars, kind, rest);
    FlattenAppend(d + [open], rest);
    FlattenSnoc(d, open);
  }

  /** Inside a bracket opened at the top level, the stack holds exactly the graphemes read since it opened. */
  lemma PendingInsideBracket(chars: seq<string>, kind: BPair, rest: seq<string>)
    requires Run(chars).bufs == []
    requires forall j :: 0 <= j <= |rest| ==> Kinds(chars + [kind.ToSimpleStringOpen()] + rest[..j]) != []
    ensures Pending(Run(chars + [kind.ToSimpleStringOpen()] + rest).bufs) == kind.ToSimpleStringOpen() + Flatten(rest)
  {
    var open := kind.ToSimpleStringOpen();
    var before := chars + [open] + rest;
    var t0, t := Run(chars), Run(before);
    var x, p := Flatten(t0.parsed) + t0.cur, Pending(t.bufs);
    assert x + p == x + open + Flatten(rest) by {
      assert x == Flatten(DropTopCommas(chars)) by {
        RunAgrees(chars);
      }
      assert Flatten(t.parsed) + t.cur + p == Flatten(DropTopCommas(before)) by {
        RunAgrees(before);
      }
      assert t.parsed == t0.parsed && t.cur == t0.cur by {
        InsideBracketKeepsArgs(chars, kind, rest);
      }
      FlattenDropInside(chars, kind, rest);
    }
    SeqCancel(x, p, open, Flatten(rest));
  }

  /**
   * A bracket group opened and closed at the top level joins the current
   * argument verbatim, its own glyphs and inner commas included, and splits
   * nothing.
   */
  lemma BracketGroupVerbatim(chars: seq<string>, kind: BPair, rest: seq<string>)
    requires Run(chars).bufs == []
    requires forall j :: 0 <= j <= |rest| ==> Kinds(chars + [kind.ToSimpleStringOpen()] + rest[..j]) != []
    requires Kinds(chars + [kind.ToSimpleStringOpen()] + rest + [kind.ToSimpleStringClose()]) == []
    ensures var t := Run(chars + [kind.ToSimpleStringOpen()] + rest + [kind.ToSimpleStringClose()]);
      && t.parsed == Run(chars).parsed
      && t.bufs == []
      && t.cur == Run(chars).cur + kind.ToSimpleStringOpen() + Flatten(rest) + kind.ToSimpleStringClose()
  {
    var open, close := kind.ToSimpleStringOpen(), kind.ToSimpleStringClose();
    var before := chars + [open] + rest;
    var t0, t := Run(chars), Run(before);
    RunSnoc(before, close);
    InsideBracketKeepsArgs(chars, kind, rest);
    PendingInsideBracket(chars, kind, rest);
    StackFollowsKinds(before);
    ClosesToEmpty(Kinds(before), kind);
    CloseLast(t, kind);
    ConcatAssoc(t.cur, open, Flatten(rest));
  }

  /** Reading a closing glyph empties a non-empty stack of kinds only when it holds just that kind. */
  lemma ClosesToEmpty(kinds: seq<BPair>, kind: BPair)
    requires kinds != [] && KindStep(kinds, kind.ToSimpleStringClose()) == []
    ensures kinds == [kind]
  {
    var ch := kind.ToSimpleStringClose();
    assert ChIsOpenBPair(ch) == None by {
      forall k: BPair ensures ch != k.ToSimpleStringOpen() { GlyphsDistinct(k, kind); }
    }
    GlyphsDistinct(kind, kinds[|kinds| - 1]);
  }

  /** Closing the only open buffer moves its text, and the glyph, to the current argument. */
  lemma CloseLast(t: Tokenizer, kind: BPair)
    requires KindsOf(t.bufs) == [kind]
    ensures var t' := Step(t, kind.ToSimpleStringClose());
      t' == Tokenizer(t.parsed, t.cur + Pending(t.bufs) + kind.ToSimpleStringClose(), [])
  {
    assert |t.bufs| == |KindsOf(t.bufs)| == 1;
    assert t.bufs[0].kind == KindsOf(t.bufs)[0];
    StepClose(t, kind);
    assert Pending(t.bufs) == "" + t.bufs[0].text;
    assert "" + t.bufs[0].text == t.bufs[0].text;
  }

  // ---------------------------------------------------------------------------
  // `reprocessed_args` and `parse_args`
  // ---------------------------------------------------------------------------

  /**
   * `reprocessed_args`: split the graphemes of an argument region at its
   * top-level commas, keeping nested brackets verbatim, and trim each
   * argument.
   */
  method ReprocessedArgs(argChars: seq<string>) returns (parsedArgs: seq<string>)
    ensures parsedArgs == Tokenize(argChars)
  {
    parsedArgs := [];
    var currArg: string := "";
    var bufs: seq<Buf> := [];
    for i := 0 to |argChars|
      invariant Tokenizer(parsedArgs, currArg, bufs) == Run(argChars[..i])
    {
      var ch := argChars[i];
      ghost var next := Step(Tokenizer(parsedArgs, currArg, bufs), ch);
      assert next == Run(argChars[..i + 1]) by {
        PrefixSnoc(argChars, i);
        RunSnoc(argChars[..i], ch);
      }
      match ChIsOpenBPair(ch) {
        case Some(bpair) =>
          assert next.bufs == NewBuf(bufs, bpair, ch);
          bufs := NewBuf(bufs, bpair, ch);
        case None =>
          if |bufs| == 0 {
            if ch == "," {
              assert next == Tokenizer(parsedArgs + [currArg], "", bufs);
              parsedArgs := parsedArgs + [currArg];
              currArg := "";
            } else {
              assert next == Tokenizer(parsedArgs, currArg + ch, bufs);
              currArg := currArg + ch;
            }
          } else {
            var top := bufs[|bufs| - 1];
            if ChIsCloseBPair(ch, top.kind) {
              var closed := CloseBuf(bufs, currArg, ch);
              assert next == Tokenizer(parsedArgs, closed.1, closed.0);
              bufs, currArg := closed.0, closed.1;
            } else {
              assert next == Tokenizer(parsedArgs, currArg, AddCharToLastBuf(bufs, ch));
              bufs := AddCharToLastBuf(bufs, ch);
            }
          }
      }
    }
    assert argChars[..|argChars|] == argChars;
    if currArg != "" {
      parsedArgs := parsedArgs + [currArg];
    }
    parsedArgs := TrimAll(parsedArgs);
  }

  /**
   * The slices `parse_args` takes without panicking: `ec - 1` must not
   * underflow, and every slice bound must lie within its line (for a single
   * line, the start must not pass the end).
   */
  predicate SliceOk(lines: seq<seq<string>>, bc: nat, ec: nat) {
    |lines| == 0 ||
    (1 <= ec &&
     if |lines| == 1 then bc <= ec - 1 <= |lines[0]|
     else bc <= |lines[0]| && ec - 1 <= |lines[|lines| - 1]|)
  }

  /**
   * The graphemes strictly between an opening bracket at 1-based column `bc`
   * of the first line and a closing bracket at column `ec` of the last line:
   * the first line from index `bc`, the lines in between whole, and the last
   * line up to index `ec - 1`, joined in order without separators.
   */
  function Region(lines: seq<seq<string>>, bc: nat, ec: nat): seq<string>
    requires SliceOk(lines, bc, ec)
  {
    if |lines| == 0 then []
    else if |lines| == 1 then lines[0][bc..ec - 1]
    else lines[0][bc..] + Flatten(lines[1..|lines| - 1]) + lines[|lines| - 1][..ec - 1]
  }

  /** The slice `parse_args` takes of line `i`. */
  function Piece(lines: seq<seq<string>>, bc: nat, ec: nat, i: nat): seq<string>
    requires SliceOk(lines, bc, ec) && i < |lines|
  {
    if |lines| == 1 then lines[i][bc..ec - 1]
    else if i == 0 then lines[i][bc..]
    else if i == |lines| - 1 then lines[i][..ec - 1]
    else lines[i]
  }

  function Pieces(lines: seq<seq<string>>, bc: nat, ec: nat): seq<seq<string>>
    requires SliceOk(lines, bc, ec)
  {
    seq(|lines|, i requires 0 <= i < |lines| => Piece(lines, bc, ec, i))
  }

  /** The line-by-line slices join up to the region. */
  lemma PiecesMakeRegion(lines: seq<seq<string>>, bc: nat, ec: nat)
    requires SliceOk(lines, bc, ec)
    ensures Flatten(Pieces(lines, bc, ec)) == Region(lines, bc, ec)
  {
    var p := Pieces(lines, bc, ec);
    var n := |lines|;
    if n == 1 {
      assert p == [] + [lines[0][bc..ec - 1]];
      FlattenSnoc([], lines[0][bc..ec - 1]);
    } else if n > 1 {
      var first, mid, last := lines[0][bc..], lines[1..n - 1], lines[n - 1][..ec - 1];
      assert p == [first] + mid + [last] by {
        forall i | 0 <= i < n ensures p[i] == ([first] + mid + [last])[i] {
          if 0 < i < n - 1 {
            assert mid[i - 1] == lines[i];
          }
        }
      }
      FlattenThree(first, mid, last);
    }
  }

  /**
   * `parse_args`: collect the graphemes strictly inside the bracket pair that
   * opens at `begPos` and closes at `endPos`, then tokenize them. The lines run
   * from the opening bracket's line to the closing bracket's; only the columns
   * of the two positions are used.
   */
  method ParseArgs(lines: seq<seq<string>>, begPos: Pos, endPos: Pos) returns (args: seq<string>)
    requires SliceOk(lines, begPos.col, endPos.col)
    ensures args == Tokenize(Region(lines, begPos.col, endPos.col))
  {
    var nLines := |lines|;
    var (_, bc) := begPos.Get();
    var (_, ec) := endPos.Get();
    ghost var pieces := Pieces(lines, bc, ec);
    var onlyArgs: seq<string> := [];
    for i := 0 to nLines
      invariant onlyArgs == Flatten(pieces[..i])
    {
      var vs := lines[i];
      var slice := vs;
      if nLines == 1 {
        slice := vs[bc..ec - 1];
      } else if i == 0 {
        slice := vs[bc..];
      } else if i == nLines - 1 {
        slice := vs[..ec - 1];
      }
      assert slice == pieces[i];
      ghost var before := onlyArgs;
      for j := 0 to |slice|
        invariant onlyArgs == before + slice[..j]
      {
        PrefixSnoc(slice, j);
        ConcatAssoc(before, slice[..j], [slice[j]]);
        onlyArgs := onlyArgs + [slice[j]];
      }
      assert slice[..|slice|] == slice;
      PrefixSnoc(pieces, i);
      FlattenSnoc(pieces[..i], pieces[i]);
    }
    assert pieces[..nLines] == pieces;
    PiecesMakeRegion(lines, bc, ec);
    args := ReprocessedArgs(onlyArgs);
  }
}
