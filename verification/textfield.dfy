/**
  `TextField::process_key`: the field's text is `None` until something is
  typed; character keys append, Backspace removes the last character (and
  empties the field when one character is left), Space appends a blank to
  existing text. Text is a `string` of single-byte characters, so the
  source's byte length is the sequence length.
 */
module TextField {
  import opened Seqs

  datatype NamedKey = Backspace | Space | OtherNamed

  /** The `winit` logical keys. */
  datatype Key = Character(text: string) | Named(name: NamedKey) | Unidentified | Dead

  /** What the field shows: its text, or nothing. */
  function Content(text: Option<string>): string
  {
    if text.Some? then text.value else ""
  }

  function ProcessKey(text: Option<string>, key: Key): (r: Option<string>)
    ensures key.Character? ==> r == Some(Content(text) + key.text)
    ensures key == Named(Backspace) ==>
              && (r.None? <==> text.None? || |text.value| == 1)
              && Content(r) == (if |Content(text)| == 0 then "" else Content(text)[..|Content(text)| - 1])
    ensures key == Named(Space) ==>
              && (r.Some? <==> text.Some?)
              && Content(r) == (if text.Some? then Content(text) + " " else "")
    ensures !key.Character? && key != Named(Backspace) && key != Named(Space) ==> r == text
  {
    match key
    case Character(c) =>
      (match text
       case Some(t) => Some(t + c)
       case None => assert Content(None) + c == c; Some(c))
    case Named(Backspace) =>
      (match text
       case Some(t) =>
         if |t| == 1 then None
         else if |t| == 0 then Some(t)
         else Some(t[..|t| - 1])
       case None => None)
    case Named(Space) =>
      (match text
       case Some(t) => Some(t + " ")
       case None => None)
    case _ => text
  }

  /** The field never holds an empty `Some`, as long as character keys carry
      text. */
  predicate NoEmptyText(text: Option<string>)
  {
    text.Some? ==> |text.value| > 0
  }

  predicate CarriesText(key: Key)
  {
    key.Character? ==> |key.text| > 0
  }

  lemma ProcessKeyKeepsNoEmptyText(text: Option<string>, key: Key)
    requires NoEmptyText(text) && CarriesText(key)
    ensures NoEmptyText(ProcessKey(text, key))
  {
  }

  /** Backspace undoes typing one character. */
  lemma BackspaceUndoesCharacter(text: Option<string>, c: char)
    requires NoEmptyText(text)
    ensures ProcessKey(ProcessKey(text, Character([c])), Named(Backspace)) == text
  {
    if text.Some? {
      assert (text.value + [c])[..|text.value|] == text.value;
    }
  }

  /** The keys pressed in order. */
  function TypeAll(text: Option<string>, keys: seq<Key>): Option<string>
    decreases |keys|
  {
    if |keys| == 0 then text else TypeAll(ProcessKey(text, keys[0]), keys[1..])
  }

  /** One character key per character of `s`. */
  function Keystrokes(s: string): (keys: seq<Key>)
    ensures |keys| == |s|
    ensures forall i :: 0 <= i < |s| ==> keys[i] == Character([s[i]])
    decreases |s|
  {
    if |s| == 0 then [] else [Character([s[0]])] + Keystrokes(s[1..])
  }

  /** Typing a word is typing its first character, then the rest. */
  lemma KeystrokesStep(text: Option<string>, s: string)
    requires |s| > 0
    ensures TypeAll(text, Keystrokes(s)) == TypeAll(ProcessKey(text, Character([s[0]])), Keystrokes(s[1..]))
  {
    assert Keystrokes(s)[1..] == Keystrokes(s[1..]);
  }

  /** Typing a word appends it to whatever the field shows. */
  lemma {:induction false} TypedContent(text: Option<string>, s: string)
    ensures Content(TypeAll(text, Keystrokes(s))) == Content(text) + s
    decreases |s|
  {
    if |s| == 0 {
      AppendNothing(Content(text), s);
    } else {
      var next := ProcessKey(text, Character([s[0]]));
      KeystrokesStep(text, s);
      TypedContent(next, s[1..]);
      AppendFirstThenRest(Content(text), s);
    }
  }

  lemma AppendNothing(a: string, s: string)
    requires |s| == 0
    ensures a + s == a
  {
  }

  lemma AppendFirstThenRest(a: string, s: string)
    requires |s| > 0
    ensures a + s == (a + [s[0]]) + s[1..]
  {
  }

  /** Typing a word appends it to whatever the field shows, a typed word
      always leaves text in the field, and typing nothing changes nothing. */
  lemma TypingAppends(text: Option<string>, s: string)
    ensures Content(TypeAll(text, Keystrokes(s))) == Content(text) + s
    ensures |s| > 0 ==> TypeAll(text, Keystrokes(s)).Some?
    ensures |s| == 0 ==> TypeAll(text, Keystrokes(s)) == text
  {
    TypedContent(text, s);
    if |s| > 0 {
      assert |Content(TypeAll(text, Keystrokes(s)))| > 0;
    }
  }

  /** `n` Backspaces. */
  function Backspaces(n: nat): (keys: seq<Key>)
    ensures |keys| == n && forall i :: 0 <= i < n ==> keys[i] == Named(Backspace)
  {
    seq(n, _ => Named(Backspace))
  }

  /** Fewer Backspaces than characters drop exactly that many from the end. */
  lemma {:induction false} BackspacesDropSuffix(t: string, n: nat)
    requires n < |t|
    ensures TypeAll(Some(t), Backspaces(n)) == Some(t[..|t| - n])
    decreases n
  {
    if n == 0 {
      assert t[..|t|] == t;
    } else {
      var next := ProcessKey(Some(t), Named(Backspace));
      assert next == Some(t[..|t| - 1]);
      assert Backspaces(n)[1..] == Backspaces(n - 1);
      BackspacesDropSuffix(t[..|t| - 1], n - 1);
      assert t[..|t| - 1][..|t| - 1 - (n - 1)] == t[..|t| - n];
    }
  }

  /** Typing H, i, blank, m, o, m, ! into a fresh field gives "Hi mom!". */
  lemma TypesHiMom()
    ensures TypeAll(None, Keystrokes("Hi mom!")) == Some("Hi mom!")
  {
    TypingAppends(None, "Hi mom!");
    assert Content(None) + "Hi mom!" == "Hi mom!";
    var r := TypeAll(None, Keystrokes("Hi mom!"));
    assert r == Some(Content(r));
  }

  /** Two Backspaces on "Hello" leave "Hel". */
  lemma BackspacesOnHello()
    ensures TypeAll(Some("Hello"), [Named(Backspace), Named(Backspace)]) == Some("Hel")
  {
    BackspacesDropSuffix("Hello", 2);
    assert "Hello"[..3] == "Hel";
    assert Backspaces(2) == [Named(Backspace), Named(Backspace)];
  }
}
