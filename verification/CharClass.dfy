/** Character classes of Python's `re` module, as far as the SSN rule needs them.

    `\d` and `\w` are Unicode classes. They stay abstract here: `CLASSES` is an
    uninterpreted constant, so every theorem holds for any pair of classes with
    the few facts listed in `Sound`. */
module CharClass {

  datatype CharClasses = CharClasses(digit: char -> bool, word: char -> bool)

  ghost predicate Sound(c: CharClasses) {
    && (forall ch: char :: c.digit(ch) ==> c.word(ch))
    && !c.word('-')
    && !c.word('[')
    && !c.word(']')
    && !c.word(':')
    && (forall ch: char :: 'A' <= ch <= 'Z' ==> !c.digit(ch))
    && (forall ch: char :: '0' <= ch <= '9' ==> c.digit(ch))
  }

  function AsciiClasses(): CharClasses {
    CharClasses(ch => '0' <= ch <= '9',
                ch => '0' <= ch <= '9' || 'A' <= ch <= 'Z' || 'a' <= ch <= 'z' || ch == '_')
  }

  type PythonClasses = c: CharClasses | Sound(c) witness AsciiClasses()

  const CLASSES: PythonClasses

  predicate IsDigit(c: char) { CLASSES.digit(c) }

  predicate IsWord(c: char) { CLASSES.word(c) }
}
