/** Command mode: after Escape the editor reads whole command strings until one
    of them quits or resumes editing. */
module CommandPrompt {
  import opened Buffer
  import opened Keys
  import opened Editing

  /** What the prompt makes of one typed command. */
  datatype Verdict = Quit | Resume | Reprompt

  /** "q" quits, "b" goes back to editing, anything else asks again. */
  function Decide(command: string): (v: Verdict)
    ensures v == Quit <==> command == "q"
    ensures v == Resume <==> command == "b"
    ensures v == Reprompt <==> command != "q" && command != "b"
  {
    if command == "q" then Quit
    else if command == "b" then Resume
    else Reprompt
  }

  /** One command submitted at the prompt. The buffer and the saved cursor are
      never touched: quitting ends the program, resuming puts the cursor back
      where Escape found it, and anything else keeps the prompt open. */
  function Submit(e: Editor, command: string): (t: Transition)
    requires Valid(e) && e.mode == Command
    ensures Valid(t.next)
    ensures t.next.lines == e.lines && t.next.row == e.row && t.next.col == e.col
    ensures t.effect == Exit <==> command == "q"
    ensures t.effect != Exit ==> t.effect == Continue
    ensures t.next.mode == Normal <==> command == "b"
  {
    match Decide(command)
    case Quit => Transition(e, Exit)
    case Resume => Transition(e.(mode := Normal), Continue)
    case Reprompt => Transition(e, Continue)
  }

  /** What the program receives next: a keystroke while editing, a whole command
      string while the prompt is open. */
  datatype Input = Keystroke(press: Press) | CommandLine(command: string)

  /** Whether an input is the kind the current mode reads. */
  predicate Expects(e: Editor, input: Input) {
    e.mode == Normal <==> input.Keystroke?
  }

  /** The whole dispatch: keystrokes go through the decoder to the edit engine,
      command strings to the prompt. */
  function Handle(e: Editor, input: Input): (t: Transition)
    requires Valid(e) && Expects(e, input)
    ensures Valid(t.next)
    ensures t.effect == Exit ==> e.mode == Command && input == CommandLine("q")
    ensures t.effect.WriteFile? ==> e.mode == Normal && input == Keystroke(Ascii(24))
    ensures e.mode == Command ==> t.next.lines == e.lines
  {
    match input
    case Keystroke(p) => Step(e, Decode(p))
    case CommandLine(s) => Submit(e, s)
  }

  /** Escape followed by "b" is no change at all. */
  lemma {:induction false} EscapeThenResume(e: Editor)
    requires Valid(e) && e.mode == Normal
    ensures Submit(Step(e, Escape).next, "b") == Transition(e, Continue)
  {
  }

  /** A command the prompt does not know leaves it waiting for another; "b" then
      resumes editing where Escape was pressed. */
  lemma {:induction false} RepromptThenResume(e: Editor, other: string)
    requires Valid(e) && e.mode == Normal && other != "q" && other != "b"
    ensures var t := Submit(Step(e, Escape).next, other);
            t.next.mode == Command && t.effect == Continue &&
            Submit(t.next, "b") == Transition(e, Continue)
  {
  }
}
