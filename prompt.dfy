/**
  The system instruction sent ahead of the user's text
  (google-calendar-chatgpt-assisted.ts:46, 82-84): the date part of today's
  ISO timestamp, "YYYY-MM-DD", takes the place of "{formattedDate}" in a fixed
  template. Today's ISO text comes from the host's clock and is an input.
*/
module Prompt {
  import opened StringOps
  import opened ZuluTime

  const Placeholder: string := "{formattedDate}"

  /** The template up to the placeholder. */
  const TemplateHead: string := Head1 + Head2 + Head3 + Head4 + Head5 + Head6 + Head7

  // The template's text, cut into pieces short enough for the verifier to scan.
  const Head1: string := "Extract event details from the text: "
  const Head2: string := "name, start/end times, location, "
  const Head3: string := "and description. Return a JSON with "
  const Head4: string := "keys: 'eventName', 'dates.start', "
  const Head5: string := "'dates.end', 'details', 'location'. "
  const Head6: string := "Use the 'YYYY-MM-DDTHH:mm:ss' format "
  const Head7: string := "for dates. Assume the current date is "

  /** The template after the placeholder. */
  const TemplateTail: string := "."

  /** CHATGPT_INSTRUCTION_TEMPLATE */
  const InstructionTemplate: string := TemplateHead + Placeholder + TemplateTail

  /** `today.toISOString().split('T')[0]` */
  function FormattedDate(todayIso: string): (r: string)
    ensures r <= todayIso && 'T' !in r
  {
    FirstPiece(todayIso, 'T')
  }

  /** `CHATGPT_INSTRUCTION_TEMPLATE.replace("{formattedDate}", formattedDate)` */
  function Instruction(todayIso: string): string
  {
    ReplaceFirst(InstructionTemplate, Placeholder, FormattedDate(todayIso))
  }

  /** Membership behind a name, so that each piece is scanned on its own. */
  predicate Lacks(s: string, c: char)
  {
    c !in s
  }

  lemma PiecesOneTwoLackBrace()
    ensures Lacks(Head1, '{') && Lacks(Head2, '{')
  {
  }

  lemma PiecesThreeFourLackBrace()
    ensures Lacks(Head3, '{') && Lacks(Head4, '{')
  {
  }

  lemma PiecesFiveSixLackBrace()
    ensures Lacks(Head5, '{') && Lacks(Head6, '{')
  {
  }

  lemma PieceSevenLacksBrace()
    ensures Lacks(Head7, '{')
  {
  }

  lemma TemplateHeadHasNoBrace()
    ensures Lacks(TemplateHead, '{')
  {
    PiecesOneTwoLackBrace();
    PiecesThreeFourLackBrace();
    PiecesFiveSixLackBrace();
    PieceSevenLacksBrace();
  }

  /**
    The placeholder occurs once, so the instruction is the template with the
    date in its place and every other character unchanged.
  */
  lemma InstructionSubstitutesDate(todayIso: string)
    ensures Instruction(todayIso) == TemplateHead + FormattedDate(todayIso) + TemplateTail
  {
    TemplateHeadHasNoBrace();
    ReplaceFirstAfter(TemplateHead, Placeholder, TemplateTail, FormattedDate(todayIso));
  }

  /** For the ISO text of a valid instant, the substituted date is its "YYYY-MM-DD" prefix. */
  lemma FormattedDateOfIso(t: Timestamp)
    requires t.Valid()
    ensures FormattedDate(t.IsoText()) == t.year + "-" + t.month + "-" + t.day
    ensures FormattedDate(t.IsoText()) == t.IsoText()[..10]
  {
    var date := t.year + "-" + t.month + "-" + t.day;
    assert 'T' !in date by {
      assert forall i :: 0 <= i < |date| ==> date[i] == '-' || '0' <= date[i] <= '9';
    }
    var rest := t.hour + ":" + t.minute + ":" + t.second + "." + t.millis + "Z";
    assert t.IsoText() == date + "T" + rest;
    FirstPieceAt(date, 'T', rest);
  }

  /** The instruction for a valid instant names its calendar date and nothing else changes. */
  lemma InstructionForToday(t: Timestamp)
    requires t.Valid()
    ensures Instruction(t.IsoText()) == TemplateHead + (t.year + "-" + t.month + "-" + t.day) + TemplateTail
  {
    InstructionSubstitutesDate(t.IsoText());
    FormattedDateOfIso(t);
  }
}
