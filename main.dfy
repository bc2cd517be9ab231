/**
 * The bracket kinds, the choice of the closest enclosing bracket, the plugin's
 * message names and the normal-mode command builder (src/main.rs).
 */
module App {
  import opened Utils

  /** The three bracket kinds the plugin knows. */
  datatype BPair = Brack | Paren | Curly {

    /** The opening and closing patterns handed to Vim's `searchpairpos`: square brackets are regex-escaped. */
    function ToStringPair(): (r: (string, string))
      ensures r.0 == (if this == Brack then "\\" else "") + ToSimpleStringOpen()
      ensures r.1 == (if this == Brack then "\\" else "") + ToSimpleStringClose()
    {
      match this
      case Brack => ("\\[", "\\]")
      case Paren => ("(", ")")
      case Curly => ("{", "}")
    }

    /** The opening glyph of the kind. */
    function ToSimpleStringOpen(): (r: string)
      ensures |r| == 1 && r != ","
    {
      match this
      case Brack => "["
      case Paren => "("
      case Curly => "{"
    }

    /** The closing glyph of the kind: one character, never a comma and never the kind's opening glyph. */
    function ToSimpleStringClose(): (r: string)
      ensures |r| == 1 && r != ","
      ensures r != ToSimpleStringOpen()
    {
      match this
      case Brack => "]"
      case Paren => ")"
      case Curly => "}"
    }
  }

  /** `BPairs::array()`: every kind exactly once, square brackets first and curly braces last. */
  function Array(): (r: seq<BPair>)
    ensures |r| == 3
    ensures Brack in r && Paren in r && Curly in r
    ensures r[0] == Brack && r[1] == Paren && r[2] == Curly
  {
    [Brack, Paren, Curly]
  }

  /** Six different glyphs: no kind's opening or closing glyph is shared with another kind or with a closer. */
  lemma GlyphsDistinct(a: BPair, b: BPair)
    ensures a.ToSimpleStringOpen() == b.ToSimpleStringOpen() <==> a == b
    ensures a.ToSimpleStringClose() == b.ToSimpleStringClose() <==> a == b
    ensures a.ToSimpleStringOpen() != b.ToSimpleStringClose()
  {
  }

  /**
   * The last coordinates Vim's `searchpairpos` reported for a kind. A failed
   * call, a reply that is not an array, or one whose first two entries are not
   * unsigned numbers counts as (0, 0), as does Vim's own "not found" reply.
   * (An array reply with fewer than two entries makes the source panic.)
   */
  function Candidate(search: Option<(nat, nat)>): (p: Pos)
    ensures search.Some? ==> p == Pos(search.value.0, search.value.1)
    ensures search.None? ==> p == Pos(0, 0)
  {
    New(if search.Some? then search.value.0 else 0, if search.Some? then search.value.1 else 0)
  }

  /**
   * `App::find_closest_bpair`, with the backward search for the i-th kind of
   * `Array()` given as `searches[i]`. The result is a kind whose backward match
   * is the largest position seen; a later kind replaces an earlier one only
   * when it is strictly larger, so ties go to the kind that comes first in
   * `Array()`; when no match lies beyond (0, 0) the result is square brackets
   * at (0, 0).
   */
  method FindClosestBPair(searches: seq<Option<(nat, nat)>>) returns (kind: BPair, pos: Pos)
    requires |searches| == |Array()|
    ensures forall i :: 0 <= i < |searches| ==> !pos.Lt(Candidate(searches[i]))
    ensures pos == Pos(0, 0) ==> kind == Brack
    ensures pos == Pos(0, 0) || (exists i :: 0 <= i < |searches| && Candidate(searches[i]) == pos &&
                                   Array()[i] == kind && forall j :: 0 <= j < i ==> Candidate(searches[j]).Lt(pos))
  {
    var bpairs := Array();
    kind, pos := Brack, New(0, 0);
    for i := 0 to |bpairs|
      invariant forall j :: 0 <= j < i ==> !pos.Lt(Candidate(searches[j]))
      invariant pos == Pos(0, 0) ==> kind == Brack
      invariant pos == Pos(0, 0) || (exists n :: 0 <= n < i && Candidate(searches[n]) == pos &&
                                       bpairs[n] == kind && forall j :: 0 <= j < n ==> Candidate(searches[j]).Lt(pos))
    {
      var candidate := Candidate(searches[i]);
      LtIsStrictTotal(pos, candidate, candidate);
      if pos.Lt(candidate) {
        forall j | 0 <= j < i ensures Candidate(searches[j]).Lt(candidate) {
          LtIsStrictTotal(Candidate(searches[j]), pos, candidate);
        }
        LtIsStrictTotal(Pos(0, 0), candidate, candidate);
        kind, pos := bpairs[i], candidate;
      }
    }
  }

  /** The messages the plugin's event loop dispatches on. */
  datatype Message =
    | DelInHere | DelArHere | ChaInHere | ChaArHere
    | SelInHere | SelArHere | YanInHere | YanArHere
    | Test
    | Unknown(event: string)

  /** The event name each known message is sent under. */
  function EventName(m: Message): string
    requires !m.Unknown?
  {
    match m
    case DelInHere => "DelInHere"
    case DelArHere => "DelArHere"
    case ChaInHere => "ChaInHere"
    case ChaArHere => "ChaArHere"
    case SelInHere => "SelInHere"
    case SelArHere => "SelArHere"
    case YanInHere => "YanInHere"
    case YanArHere => "YanArHere"
    case Test => "Test"
  }

  const KnownEvents: set<string> :=
    {"DelInHere", "DelArHere", "ChaInHere", "ChaArHere",
     "SelInHere", "SelArHere", "YanInHere", "YanArHere", "Test"}

  /**
   * `Messages::from`: the nine known event names map to their messages, and
   * every other string becomes `Unknown` carrying the string itself.
   */
  function FromEvent(event: string): (m: Message)
    ensures m.Unknown? <==> event !in KnownEvents
    ensures m.Unknown? ==> m.event == event
    ensures !m.Unknown? ==> EventName(m) == event
  {
    match event
    case "DelInHere" => DelInHere
    case "DelArHere" => DelArHere
    case "ChaInHere" => ChaInHere
    case "ChaArHere" => ChaArHere
    case "SelInHere" => SelInHere
    case "SelArHere" => SelArHere
    case "YanInHere" => YanInHere
    case "YanArHere" => YanArHere
    case "Test" => Test
    case _ => Unknown(event)
  }

  /** Every known message survives the trip through its event name. */
  lemma FromEventName(m: Message)
    requires !m.Unknown?
    ensures EventName(m) in KnownEvents
    ensures FromEvent(EventName(m)) == m
  {
  }

  /** `_verb_adverb_here`: the verb, then the adverb, then the bracket glyph, with nothing between. */
  function VerbAdverbHere(verb: string, adverb: string, here: string): (r: string)
    ensures |r| == |verb| + |adverb| + |here|
    ensures r[..|verb|] == verb
    ensures r[|verb|..|verb| + |adverb|] == adverb
    ensures r[|verb| + |adverb|..] == here
  {
    verb + adverb + here
  }
}
