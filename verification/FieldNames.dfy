/**
 The name that a link field has when the hierarchy gives none: the parent record
 in snake case, and `_id`.
 */
module FieldNames {
  import opened Json
  import opened Sequences
  import opened Texts

  predicate EndsInUnderscore(s: string) {
    s != "" && s[|s| - 1] == '_'
  }

  /** What has been written, and whether the last character read was a lower-case letter or a digit. */
  datatype Writing = Writing(out: string, afterLower: bool)

  function Write(w: Writing, c: char): Writing {
    if IsUpper(c) then
      Writing((if w.afterLower && !EndsInUnderscore(w.out) then w.out + "_" else w.out) + [ToLower(c)], false)
    else if IsLower(c) || IsDigit(c) then Writing(w.out + [c], true)
    else if w.out != "" && !EndsInUnderscore(w.out) then Writing(w.out + "_", false)
    else w
  }

  function Written(value: string): Writing {
    if value == "" then Writing("", false) else Write(Written(value[..|value| - 1]), value[|value| - 1])
  }

  function TrimUnderscores(s: string): string
    decreases |s|
  {
    if s == "" then ""
    else if s[0] == '_' then TrimUnderscores(s[1..])
    else if s[|s| - 1] == '_' then TrimUnderscores(s[..|s| - 1])
    else s
  }

  function Snake(value: string): string {
    TrimUnderscores(Written(value).out)
  }

  method SnakeCase(value: string) returns (r: string)
    ensures r == Snake(value)
  {
    var out, afterLower := "", false;
    for i := 0 to |value|
      invariant Writing(out, afterLower) == Written(value[..i])
    {
      TakeOneMore(value, i);
      assert value[..i + 1][..i] == value[..i];
      var c := value[i];
      if IsUpper(c) || IsLower(c) || IsDigit(c) {
        if IsUpper(c) {
          if afterLower && !EndsInUnderscore(out) {
            out := out + "_";
          }
          out := out + [ToLower(c)];
          afterLower := false;
        } else {
          out := out + [ToLower(c)];
          afterLower := IsLower(c) || IsDigit(c);
        }
      } else if !EndsInUnderscore(out) && out != "" {
        out := out + "_";
        afterLower := false;
      }
    }
    TakeAll(value);
    r := TrimUnderscores(out);
  }

  function DefaultField(record: string): string {
    Snake(record) + "_id"
  }

  // ----- what the names look like -----

  predicate NameChar(c: char) {
    IsLower(c) || IsDigit(c) || c == '_'
  }

  /** Lower-case letters, digits and single underscores, none in front. */
  predicate Plain(s: string) {
    && (forall i :: 0 <= i < |s| ==> NameChar(s[i]))
    && (s != "" ==> s[0] != '_')
    && (forall i :: 0 < i < |s| && s[i] == '_' ==> s[i - 1] != '_')
  }

  predicate IsSnake(s: string) {
    Plain(s) && !EndsInUnderscore(s)
  }

  lemma PlainSnoc(s: string, c: char)
    requires Plain(s) && NameChar(c) && (c == '_' ==> s != "" && !EndsInUnderscore(s))
    ensures Plain(s + [c])
  {
    var t := s + [c];
    assert forall i :: 0 <= i < |s| ==> t[i] == s[i];
  }

  lemma {:induction false} WrittenIsPlain(value: string)
    ensures Plain(Written(value).out)
    ensures Written(value).afterLower ==> Written(value).out != "" && !EndsInUnderscore(Written(value).out)
  {
    hide Plain;
    if value == "" {
      assert Plain("") by { NothingIsPlain(); }
    } else {
      var w, c := Written(value[..|value| - 1]), value[|value| - 1];
      WrittenIsPlain(value[..|value| - 1]);
      if IsUpper(c) {
        if w.afterLower && !EndsInUnderscore(w.out) {
          PlainSnoc(w.out, '_');
          PlainSnoc(w.out + "_", ToLower(c));
        } else {
          PlainSnoc(w.out, ToLower(c));
        }
      } else if IsLower(c) || IsDigit(c) {
        PlainSnoc(w.out, c);
      } else if w.out != "" && !EndsInUnderscore(w.out) {
        PlainSnoc(w.out, '_');
      }
    }
  }

  lemma NothingIsPlain()
    ensures Plain("")
  {
  }

  lemma TrimPlain(s: string)
    requires Plain(s)
    ensures IsSnake(TrimUnderscores(s))
    ensures !EndsInUnderscore(s) ==> TrimUnderscores(s) == s
  {
    if EndsInUnderscore(s) {
      var t := s[..|s| - 1];
      assert t != "" && s[|s| - 2] != '_' && t[|t| - 1] == s[|s| - 2];
      assert TrimUnderscores(t) == t;
    }
  }

  /** A name in snake case is written as it is. */
  lemma {:induction false} PlainIsWritten(s: string)
    requires Plain(s)
    ensures Written(s).out == s
  {
    hide Plain;
    if s != "" {
      PlainFront(s);
      PlainIsWritten(s[..|s| - 1]);
    }
  }

  lemma PlainFront(s: string)
    requires Plain(s) && s != ""
    ensures var front, last := s[..|s| - 1], s[|s| - 1];
            && Plain(front) && s == front + [last] && NameChar(last)
            && (last == '_' ==> front != "" && !EndsInUnderscore(front))
  {
  }

  /** Names are in snake case, those already in snake case are kept, and so a second conversion changes nothing. */
  lemma SnakeIsSnake(value: string)
    ensures IsSnake(Snake(value))
    ensures IsSnake(value) ==> Snake(value) == value
    ensures Snake(Snake(value)) == Snake(value)
  {
    WrittenIsPlain(value);
    TrimPlain(Written(value).out);
    var name := Snake(value);
    PlainIsWritten(name);
    TrimPlain(name);
    if IsSnake(value) {
      PlainIsWritten(value);
      TrimPlain(value);
    }
  }

  // ----- what the names are -----

  predicate IsWordChar(c: char) {
    'A' <= c <= 'Z' || 'a' <= c <= 'z' || '0' <= c <= '9'
  }

  predicate IsLowerOrDigit(c: char) {
    'a' <= c <= 'z' || '0' <= c <= '9'
  }

  /**
   A word starts at a letter or digit that is not the first of the text, when
   something else stands right before it, or when it is a capital right after a
   lower-case letter or a digit.
   */
  predicate StartsWord(value: string, i: nat)
    requires i < |value|
  {
    && IsWordChar(value[i])
    && (exists j :: 0 <= j < i && IsWordChar(value[j]))
    && (!IsWordChar(value[i - 1]) || ('A' <= value[i] <= 'Z' && IsLowerOrDigit(value[i - 1])))
  }

  /** The first n characters of a text as words: its letters and digits in lower case, an underscore before each further word. */
  function Words(value: string, n: nat): string
    requires n <= |value|
  {
    if n == 0 then ""
    else
      var c := value[n - 1];
      Words(value, n - 1) +
      if !IsWordChar(c) then ""
      else (if StartsWord(value, n - 1) then "_" else "") + [if 'A' <= c <= 'Z' then (c as int + 32) as char else c]
  }

  lemma {:induction false} WordsNotEmpty(value: string, n: nat)
    requires n <= |value|
    ensures Words(value, n) != "" <==> exists j :: 0 <= j < n && IsWordChar(value[j])
    ensures Words(value, n) != "" ==> Words(value, n)[|Words(value, n)| - 1] != '_'
  {
    if n > 0 {
      WordsNotEmpty(value, n - 1);
      if IsWordChar(value[n - 1]) {
        assert Words(value, n)[|Words(value, n)| - 1] != '_';
      } else {
        assert Words(value, n) == Words(value, n - 1);
      }
    }
  }

  /** What is written when the words so far are these and the last character was that one, if any. */
  function WritingOf(words: string, last: Option<char>): Writing {
    Writing(words + (if words != "" && last.Some? && !IsWordChar(last.value) then "_" else ""),
            last.Some? && IsLowerOrDigit(last.value))
  }

  lemma WriteOne(words: string, last: Option<char>, c: char)
    requires words != "" ==> words[|words| - 1] != '_' && last.Some?
    requires words == "" && last.Some? ==> !IsWordChar(last.value)
    ensures var starts := words != "" && (!IsWordChar(last.value) || ('A' <= c <= 'Z' && IsLowerOrDigit(last.value)));
            var letter := [if 'A' <= c <= 'Z' then (c as int + 32) as char else c];
            var longer := if !IsWordChar(c) then words else words + (if starts then "_" else "") + letter;
            Write(WritingOf(words, last), c) == WritingOf(longer, Some(c))
  {
    LowerCaseLetters(c);
    assert words + "" == words;
  }

  function LastOf(value: string, n: nat): Option<char>
    requires n <= |value|
  {
    if n == 0 then None else Some(value[n - 1])
  }

  lemma {:induction false} WordsWritten(value: string, n: nat)
    requires n <= |value|
    ensures Written(value[..n]) == WritingOf(Words(value, n), LastOf(value, n))
  {
    hide WritingOf, Write;
    if n == 0 {
      assert value[..0] == "";
      NothingWritten();
    } else {
      WordsWritten(value, n - 1);
      WordsNotEmpty(value, n - 1);
      assert value[..n][..n - 1] == value[..n - 1];
      WriteOne(Words(value, n - 1), LastOf(value, n - 1), value[n - 1]);
      WordsGrow(value, n);
    }
  }

  lemma NothingWritten()
    ensures WritingOf("", None) == Writing("", false)
  {
  }

  lemma WordsGrow(value: string, n: nat)
    requires 0 < n <= |value|
    ensures var words, c, last := Words(value, n - 1), value[n - 1], LastOf(value, n - 1);
            var starts := words != "" && (!IsWordChar(last.value) || ('A' <= c <= 'Z' && IsLowerOrDigit(last.value)));
            var letter := [if 'A' <= c <= 'Z' then (c as int + 32) as char else c];
            && (words != "" ==> last.Some?)
            && Words(value, n) == if !IsWordChar(c) then words else words + (if starts then "_" else "") + letter
  {
    WordsNotEmpty(value, n - 1);
    var words := Words(value, n - 1);
    assert words + "" == words;
  }

  lemma TrimLast(s: string)
    requires s != "" && s[0] != '_' && s[|s| - 1] != '_'
    ensures TrimUnderscores(s) == s && TrimUnderscores(s + "_") == s
  {
    assert (s + "_")[..|s|] == s;
  }

  lemma {:induction false} WordsStart(value: string, n: nat)
    requires n <= |value|
    ensures Words(value, n) != "" ==> Words(value, n)[0] != '_'
  {
    if n > 0 {
      WordsStart(value, n - 1);
      WordsGrow(value, n);
      LowerCaseLetters(value[n - 1]);
    }
  }

  /** A record name in snake case is its words, in lower case, with an underscore between them and nowhere else. */
  lemma SnakeIsWords(value: string)
    ensures Snake(value) == Words(value, |value|)
  {
    hide Words;
    WordsWritten(value, |value|);
    WordsStart(value, |value|);
    WordsNotEmpty(value, |value|);
    assert value[..|value|] == value;
    var words := Words(value, |value|);
    assert words + "" == words;
    if words != "" {
      TrimLast(words);
    }
  }

  /** A capital after a lower-case letter starts a word, any other letter goes on with the one before it. */
  lemma OneMoreLetter(value: string, words: string, n: nat)
    requires n < |value| && Words(value, n) == words && IsWordChar(value[n])
    requires n > 0 ==> IsWordChar(value[n - 1])
    ensures var c := value[n];
            Words(value, n + 1) ==
            words + if 'A' <= c <= 'Z' then (if n > 0 && IsLowerOrDigit(value[n - 1]) then "_" else "") + [(c as int + 32) as char]
                    else [c]
  {
    WordsNotEmpty(value, n);
    WordsGrow(value, n + 1);
    if n > 0 {
      assert exists j :: 0 <= j < n && IsWordChar(value[j]);
    }
  }

  lemma SalesWord()
    ensures Words("SalesOrder", 5) == "sales"
  {
    hide Words;
    var s := "SalesOrder";
    NoWords(s);
    OneMoreLetter(s, "", 0);
    OneMoreLetter(s, "s", 1);
    OneMoreLetter(s, "sa", 2);
    OneMoreLetter(s, "sal", 3);
    OneMoreLetter(s, "sale", 4);
  }

  /** The field of a link to SalesOrder, unless another is named. */
  lemma SalesOrderField()
    ensures DefaultField("SalesOrder") == "sales_order_id"
  {
    hide Words, Snake;
    var s := "SalesOrder";
    SnakeIsWords(s);
    SalesWord();
    OneMoreLetter(s, "sales", 5);
    OneMoreLetter(s, "sales_o", 6);
    OneMoreLetter(s, "sales_or", 7);
    OneMoreLetter(s, "sales_ord", 8);
    OneMoreLetter(s, "sales_orde", 9);
  }

  lemma NoWords(value: string)
    ensures Words(value, 0) == ""
  {
  }
}
