/**
 * The chat page's local canned-reply selection: clean the visitor's text,
 * replace it when the whole of it is a known misspelling, then take the reply
 * of the first keyword, in table order, that the corrected text contains, or a
 * fixed fallback when none does.
 */
module Canned {
  import opened Wrappers
  import JsText

  /** The keyword table, in the insertion order in which `for…in` visits it. */
  const Table: seq<(string, string)> := [
    ("রোজা", "রোজা বা সিয়াম ইসলামের একটি গুরুত্বপূর্ণ ইবাদত।"),
    ("hi", "এসব না বলে সরাসরি বলেন কি দরকার"),
    ("hello", "Hello, how can I assist you today?"),
    ("price", "Our current price list is available on our website."),
    ("contact", "You can contact us via email or phone."),
    ("bye", "Thank you for chatting with us. Have a great day!")
  ]

  /** The reply shown when no keyword occurs. */
  const Fallback: string := "আপনার প্রশ্নটি পেয়েছি, শীঘ্রই উত্তর দেওয়া হবে।"

  /** The word every known misspelling is corrected to. */
  const Canonical: string := "রোজা"

  /** The spelling-correction table: whole-string misspelling to canonical word. */
  const Corrections: map<string, string> :=
    map["রজা" := Canonical, "রুজা" := Canonical, "rozha" := Canonical, "roja" := Canonical, "roza" := Canonical]

  // ---------------------------------------------------------------------------
  // cleanInput: lower-case the text, drop every character outside the allowed
  // set, then trim whitespace from both ends.
  // ---------------------------------------------------------------------------

  /** The characters the filter keeps: ASCII letters and digits, U+0985..U+09B9, U+09BE..U+09F3, space. */
  predicate Allowed(c: char)
  {
    ('a' <= c <= 'z') || ('A' <= c <= 'Z') || ('0' <= c <= '9') ||
    ('\U{0985}' <= c <= '\U{09B9}') || ('\U{09BE}' <= c <= '\U{09F3}') || c == ' '
  }

  /** The characters a cleaned string may hold: those the filter keeps, less upper-case ASCII. */
  predicate IsCleanChar(c: char)
  {
    ('a' <= c <= 'z') || ('0' <= c <= '9') ||
    ('\U{0985}' <= c <= '\U{09B9}') || ('\U{09BE}' <= c <= '\U{09F3}') || c == ' '
  }

  predicate IsUpperAscii(c: char)
  {
    'A' <= c <= 'Z'
  }

  /**
   * `toLowerCase` of one character. ASCII capitals, U+0130 (lower case "i"
   * + U+0307) and the Kelvin sign U+212A (lower case "k") are mapped exactly.
   * Every other character is kept. That is exact for characters without a case
   * mapping, which include everything the filter keeps apart from the capitals.
   * For the other cased characters (such as 'É'), both the character and its
   * true lower case lie outside the filter's set.
   */
  function LowerChar(c: char): (r: string)
    ensures forall i :: 0 <= i < |r| ==> !IsUpperAscii(r[i])
    ensures IsUpperAscii(c) ==> |r| == 1 && 'a' <= r[0] <= 'z' && r[0] as int - 'a' as int == c as int - 'A' as int
    ensures c == '\U{0130}' ==> r == "i\U{0307}"
    ensures c == '\U{212A}' ==> r == "k"
    ensures !IsUpperAscii(c) && c != '\U{0130}' && c != '\U{212A}' ==> r == [c]
    ensures c != '\U{0130}' ==> |r| == 1
  {
    if IsUpperAscii(c) then [(c as int + 32) as char]
    else if c == '\U{0130}' then "i\U{0307}"
    else if c == '\U{212A}' then "k"
    else [c]
  }

  /** `s.toLowerCase()` (see LowerChar): no upper-case ASCII survives it. */
  function ToLower(s: string): (r: string)
    ensures forall i :: 0 <= i < |r| ==> !IsUpperAscii(r[i])
  {
    if s == [] then [] else LowerChar(s[0]) + ToLower(s[1..])
  }

  /** The global regular-expression replacement: keeps exactly the allowed characters, in order. */
  function StripDisallowed(s: string): (r: string)
    ensures |r| <= |s|
    ensures forall i :: 0 <= i < |r| ==> Allowed(r[i]) && r[i] in s
    ensures |s| == 1 ==> r == (if Allowed(s[0]) then s else [])
  {
    if s == [] then []
    else (if Allowed(s[0]) then [s[0]] else []) + StripDisallowed(s[1..])
  }

  /** `cleanInput`: lower-case, drop what the filter rejects, trim. */
  function Clean(s: string): (r: string)
    ensures |r| <= |ToLower(s)|
  {
    JsText.Trim(StripDisallowed(ToLower(s)))
  }

  /**
   * What `cleanInput` yields holds only lower-case ASCII letters, digits, the
   * two Bengali ranges and spaces, and neither starts nor ends with a space.
   */
  lemma CleanOutput(s: string)
    ensures forall i :: 0 <= i < |Clean(s)| ==> IsCleanChar(Clean(s)[i])
    ensures Clean(s) != [] ==> Clean(s)[0] != ' ' && Clean(s)[|Clean(s)| - 1] != ' '
  {
    JsText.TrimIsSubstring(StripDisallowed(ToLower(s)));
  }

  lemma {:induction false} ToLowerFixed(s: string)
    requires forall i :: 0 <= i < |s| ==> IsCleanChar(s[i])
    ensures ToLower(s) == s
  {
    if s != [] {
      ToLowerFixed(s[1..]);
    }
  }

  /** Lower-casing works character by character, so it distributes over concatenation. */
  lemma {:induction false} ToLowerAppend(a: string, b: string)
    ensures ToLower(a + b) == ToLower(a) + ToLower(b)
  {
    if a != [] {
      calc {
        ToLower(a + b);
        LowerChar((a + b)[0]) + ToLower((a + b)[1..]);
        { assert (a + b)[0] == a[0] && (a + b)[1..] == a[1..] + b; }
        LowerChar(a[0]) + ToLower(a[1..] + b);
        { ToLowerAppend(a[1..], b); }
        LowerChar(a[0]) + (ToLower(a[1..]) + ToLower(b));
      }
    } else {
      assert a + b == b;
    }
  }

  /** Apart from U+0130, lower-casing maps each character to one character, in place. */
  lemma {:induction false} ToLowerPointwise(s: string)
    requires '\U{0130}' !in s
    ensures |ToLower(s)| == |s|
    ensures forall i :: 0 <= i < |s| ==> ToLower(s)[i] == LowerChar(s[i])[0]
  {
    if s != [] {
      ToLowerPointwise(s[1..]);
      assert ToLower(s) == LowerChar(s[0]) + ToLower(s[1..]);
      forall i | 0 <= i < |s|
        ensures ToLower(s)[i] == LowerChar(s[i])[0]
      {
        if i > 0 {
          assert s[1..][i - 1] == s[i];
        }
      }
    }
  }

  /** The filter works character by character: it distributes over concatenation. */
  lemma {:induction false} StripAppend(a: string, b: string)
    ensures StripDisallowed(a + b) == StripDisallowed(a) + StripDisallowed(b)
  {
    if a == [] {
      assert a + b == b;
    } else {
      assert (a + b)[0] == a[0] && (a + b)[1..] == a[1..] + b;
      StripAppend(a[1..], b);
    }
  }

  lemma {:induction false} StripFixed(s: string)
    requires forall i :: 0 <= i < |s| ==> Allowed(s[i])
    ensures StripDisallowed(s) == s
  {
    if s != [] {
      StripFixed(s[1..]);
    }
  }

  /** A clean character other than space is not whitespace to `trim`. */
  lemma CleanCharNotWhitespace(c: char)
    requires IsCleanChar(c) && c != ' '
    ensures Allowed(c) && !JsText.IsJsWhitespace(c)
  {
  }

  /** A string that is already clean is its own cleaning. */
  lemma CleanFixed(s: string)
    requires forall i :: 0 <= i < |s| ==> IsCleanChar(s[i])
    requires s != [] ==> s[0] != ' ' && s[|s| - 1] != ' '
    ensures Clean(s) == s
  {
    ToLowerFixed(s);
    StripFixed(s);
    JsText.TrimFixed(s);
  }

  /** A trailing character that cleaning removes, such as a question mark, does not change what a clean text cleans to. */
  lemma TrailingDropped(s: string, c: char)
    requires forall i :: 0 <= i < |s| ==> IsCleanChar(s[i])
    requires s != [] ==> s[0] != ' ' && s[|s| - 1] != ' '
    requires !IsUpperAscii(c) && c != '\U{0130}' && c != '\U{212A}' && !Allowed(c)
    ensures Clean(s + [c]) == s
  {
    TrailingKept(s, c);
    TrailingStripped(s, c);
    if s != [] {
      CleanCharNotWhitespace(s[0]);
      CleanCharNotWhitespace(s[|s| - 1]);
    }
    JsText.TrimFixed(s);
  }

  lemma TrailingKept(s: string, c: char)
    requires forall i :: 0 <= i < |s| ==> IsCleanChar(s[i])
    requires !IsUpperAscii(c) && c != '\U{0130}' && c != '\U{212A}'
    ensures ToLower(s + [c]) == s + [c]
  {
    ToLowerAppend(s, [c]);
    ToLowerFixed(s);
    assert ToLower([c]) == [c] by { assert [c][1..] == []; }
  }

  lemma TrailingStripped(s: string, c: char)
    requires forall i :: 0 <= i < |s| ==> IsCleanChar(s[i])
    requires !Allowed(c)
    ensures StripDisallowed(s + [c]) == s
  {
    StripAppend(s, [c]);
    assert StripDisallowed([c]) == [] by { assert [c][1..] == []; }
    forall i | 0 <= i < |s|
      ensures Allowed(s[i])
    {
    }
    StripFixed(s);
  }

  /** When lower-casing alone already gives a clean text, cleaning is just lower-casing. */
  lemma CleanIsLowerCase(s: string)
    requires forall i :: 0 <= i < |ToLower(s)| ==> IsCleanChar(ToLower(s)[i])
    requires ToLower(s) != [] ==> ToLower(s)[0] != ' ' && ToLower(s)[|ToLower(s)| - 1] != ' '
    ensures Clean(s) == ToLower(s)
  {
    var t := ToLower(s);
    forall i | 0 <= i < |t|
      ensures Allowed(t[i])
    {
    }
    StripFixed(t);
    if t != [] {
      CleanCharNotWhitespace(t[0]);
      CleanCharNotWhitespace(t[|t| - 1]);
    }
    JsText.TrimFixed(t);
  }

  /** Cleaning is idempotent. */
  lemma CleanIdempotent(s: string)
    ensures Clean(Clean(s)) == Clean(s)
  {
    CleanOutput(s);
    CleanFixed(Clean(s));
  }

  // ---------------------------------------------------------------------------
  // correctSpelling: look the whole text up among the misspellings, and keep
  // the text when the lookup finds nothing.
  // ---------------------------------------------------------------------------

  /**
   * `correctSpelling`, reading only the table's own entries: the text is
   * replaced by the canonical word when the WHOLE text is a known misspelling,
   * and is returned unchanged otherwise.
   */
  function CorrectSpelling(s: string): (r: string)
    ensures r != s <==> s in {"রজা", "রুজা", "rozha", "roja", "roza"}
    ensures r != s ==> r == Canonical
  {
    if s in Corrections then Corrections[s] else s
  }

  /** A misspelling inside a longer phrase is not corrected. */
  lemma PhraseNotCorrected()
    ensures CorrectSpelling("roza please") == "roza please"
  {
  }

  // ---------------------------------------------------------------------------
  // correctSpelling as written: the lookup reads a property of a plain object
  // literal, so it also finds what every object inherits.
  // ---------------------------------------------------------------------------

  /** The properties every object literal inherits from `Object.prototype`. */
  const InheritedMembers: set<string> := {
    "constructor", "__defineGetter__", "__defineSetter__", "hasOwnProperty",
    "__lookupGetter__", "__lookupSetter__", "isPrototypeOf", "propertyIsEnumerable",
    "toString", "valueOf", "__proto__", "toLocaleString"
  }

  /** What `correctSpelling` returns as written: a string, or an inherited member, which is no string. */
  datatype Corrected = Text(text: string) | InheritedMember

  function CorrectSpellingAsWritten(s: string): (r: Corrected)
    ensures r == InheritedMember <==> s !in Corrections && s in InheritedMembers
    ensures r.Text? ==> r.text == CorrectSpelling(s)
  {
    if s in Corrections then Text(Corrections[s])
    else if s in InheritedMembers then InheritedMember
    else Text(s)
  }

  /** Of the inherited member names, only "constructor" can be the result of cleaning. */
  lemma OnlyConstructorIsClean(s: string)
    requires forall i :: 0 <= i < |s| ==> IsCleanChar(s[i])
    requires s in InheritedMembers
    ensures s == "constructor"
  {
    assert !IsCleanChar("toString"[2]) && !IsCleanChar("isPrototypeOf"[2]);
    assert !IsCleanChar("toLocaleString"[2]) && !IsCleanChar("hasOwnProperty"[3]);
    assert !IsCleanChar("valueOf"[5]) && !IsCleanChar("propertyIsEnumerable"[8]);
    assert forall t :: t in InheritedMembers && t[0] == '_' ==> !IsCleanChar(t[0]);
  }

  /**
   * The reply as the page computes it; None when `corrected.includes` throws
   * because the corrected value is an inherited member rather than a string,
   * and the page then shows its apology.
   */
  function ReplyAsWritten(message: string): (r: Option<string>)
    ensures r.None? <==> Clean(message) !in Corrections && Clean(message) in InheritedMembers
    ensures r.Some? ==> r.value == ReplyTo(Table, message)
  {
    match CorrectSpellingAsWritten(Clean(message))
    case Text(t) => Some(SelectReply(Table, t))
    case InheritedMember => None
  }

  /** On every clean text but "constructor", the lookup as written agrees with the own-entry one. */
  lemma AsWrittenLookupAgrees(s: string)
    requires forall i :: 0 <= i < |s| ==> IsCleanChar(s[i])
    ensures CorrectSpellingAsWritten(s) == InheritedMember <==> s == "constructor"
    ensures s != "constructor" ==> CorrectSpellingAsWritten(s) == Text(CorrectSpelling(s))
  {
    if s in InheritedMembers {
      OnlyConstructorIsClean(s);
    }
    assert "constructor" in InheritedMembers && "constructor" !in Corrections;
  }

  /**
   * The page as written departs from the own-entry reading on exactly one
   * cleaned text, "constructor"; every other text gets the same reply.
   */
  lemma AsWrittenDeparture(message: string)
    ensures ReplyAsWritten(message).None? <==> Clean(message) == "constructor"
    ensures ReplyAsWritten(message).Some? ==> ReplyAsWritten(message).value == ReplyTo(Table, message)
  {
    CleanOutput(message);
    AsWrittenLookupAgrees(Clean(message));
    ReplyThroughCorrected(message, CorrectSpelling(Clean(message)));
  }

  // ---------------------------------------------------------------------------
  // The first-match scan over predefinedAnswers
  // ---------------------------------------------------------------------------

  /** The key, lower-cased, occurs somewhere in the corrected text. */
  predicate KeyOccurs(text: string, key: string)
  {
    JsText.Includes(text, ToLower(key))
  }

  /**
   * The index of the first entry, at or after `from`, whose key occurs in
   * `text`; None when no key from `from` on occurs.
   */
  function FirstMatch(table: seq<(string, string)>, text: string, from: nat): (r: Option<nat>)
    requires from <= |table|
    ensures r.Some? ==> from <= r.value < |table|
    decreases |table| - from
  {
    if from == |table| then None
    else if KeyOccurs(text, table[from].0) then Some(from)
    else FirstMatch(table, text, from + 1)
  }

  /** When the scan finds an entry, its key occurs and no key between `from` and it does. */
  lemma {:induction false} FirstMatchFound(table: seq<(string, string)>, text: string, from: nat)
    requires from <= |table| && FirstMatch(table, text, from).Some?
    ensures KeyOccurs(text, table[FirstMatch(table, text, from).value].0)
    ensures forall j :: from <= j < FirstMatch(table, text, from).value ==> !KeyOccurs(text, table[j].0)
    decreases |table| - from
  {
    if !KeyOccurs(text, table[from].0) {
      FirstMatchFound(table, text, from + 1);
    }
  }

  /** When the scan finds nothing, no key from `from` on occurs. */
  lemma {:induction false} FirstMatchNone(table: seq<(string, string)>, text: string, from: nat)
    requires from <= |table| && FirstMatch(table, text, from).None?
    ensures forall j :: from <= j < |table| ==> !KeyOccurs(text, table[j].0)
    decreases |table| - from
  {
    if from < |table| {
      var missed := !KeyOccurs(text, table[from].0);
      assert missed && FirstMatch(table, text, from + 1).None?;
      FirstMatchNone(table, text, from + 1);
      forall j | from <= j < |table|
        ensures !KeyOccurs(text, table[j].0)
      {
        if j == from {
          assert missed;
        }
      }
    }
  }

  /** The reply of the first matching entry, or the fallback. */
  function SelectReply(table: seq<(string, string)>, text: string): (r: string)
    ensures r == Fallback || exists i :: 0 <= i < |table| && r == table[i].1
  {
    match FirstMatch(table, text, 0)
    case Some(i) => table[i].1
    case None => Fallback
  }

  /** The canned reply the chat page computes, from the answer table `table`, for what the visitor typed. */
  function ReplyTo(table: seq<(string, string)>, message: string): (r: string)
    ensures r == Fallback || exists i :: 0 <= i < |table| && r == table[i].1
  {
    SelectReply(table, CorrectSpelling(Clean(message)))
  }

  /** Priority: the earliest entry whose key occurs decides the reply, whatever later keys occur. */
  lemma FirstKeyWins(table: seq<(string, string)>, text: string, i: nat)
    requires i < |table| && KeyOccurs(text, table[i].0)
    requires forall j :: 0 <= j < i ==> !KeyOccurs(text, table[j].0)
    ensures SelectReply(table, text) == table[i].1
  {
    if FirstMatch(table, text, 0).Some? {
      FirstMatchFound(table, text, 0);
    } else {
      FirstMatchNone(table, text, 0);
    }
  }

  /** Without any key in the text, the reply is the fallback. */
  lemma NoKeyFallback(table: seq<(string, string)>, text: string)
    requires forall j :: 0 <= j < |table| ==> !KeyOccurs(text, table[j].0)
    ensures SelectReply(table, text) == Fallback
  {
    if FirstMatch(table, text, 0).Some? {
      FirstMatchFound(table, text, 0);
    }
  }

  /**
   * The `for…in` loop: starts from the fallback, overwrites it with the answer
   * of the first key the corrected text contains, and stops there.
   */
  method ChooseReply(table: seq<(string, string)>, corrected: string) returns (botReply: string)
    ensures botReply == SelectReply(table, corrected)
  {
    botReply := Fallback;
    var i := 0;
    while i < |table|
      invariant 0 <= i <= |table|
      invariant FirstMatch(table, corrected, i) == FirstMatch(table, corrected, 0)
      invariant botReply == Fallback
    {
      var (key, answer) := table[i];
      if JsText.Includes(corrected, ToLower(key)) {
        botReply := answer;
        break;
      }
      i := i + 1;
    }
  }

  // ---------------------------------------------------------------------------
  // The table itself
  // ---------------------------------------------------------------------------

  /** Every key is already lower case, so `key.toLowerCase()` is the key itself. */
  lemma TableKeysLower()
    ensures forall i :: 0 <= i < |Table| ==> ToLower(Table[i].0) == Table[i].0
  {
    forall i | 0 <= i < |Table|
      ensures ToLower(Table[i].0) == Table[i].0
    {
      ToLowerFixed(Table[i].0);
    }
  }

  /** `text` does not hold `key` because it lacks one of the key's characters. */
  lemma MissingChar(text: string, key: string, c: char)
    requires c in key && c !in text
    ensures !JsText.Includes(text, key)
  {
    if JsText.Includes(text, key) {
      JsText.IncludesChars(text, key);
    }
  }

  /** The reply depends on the visitor's text only through its corrected form. */
  lemma ReplyThroughCorrected(message: string, corrected: string)
    requires CorrectSpelling(Clean(message)) == corrected
    ensures ReplyTo(Table, message) == SelectReply(Table, corrected)
  {
  }

  /** Priority over the page's own table, stated on its keys as written. */
  lemma TableReplyAt(text: string, i: nat)
    requires i < |Table| && JsText.Includes(text, Table[i].0)
    requires forall j :: 0 <= j < i ==> !JsText.Includes(text, Table[j].0)
    ensures SelectReply(Table, text) == Table[i].1
  {
    TableKeysLower();
    FirstKeyWins(Table, text, i);
  }

  /** The fallback over the page's own table, stated on its keys as written. */
  lemma TableFallback(text: string)
    requires forall j :: 0 <= j < |Table| ==> !JsText.Includes(text, Table[j].0)
    ensures SelectReply(Table, text) == Fallback
  {
    TableKeysLower();
    NoKeyFallback(Table, text);
  }

  /** Text that lacks, for each key of the page's table, one of that key's characters gets the fallback. */
  lemma MissesEveryKey(text: string, missing: seq<char>)
    requires |missing| == |Table|
    requires forall k :: 0 <= k < |Table| ==> missing[k] in Table[k].0 && missing[k] !in text
    ensures SelectReply(Table, text) == Fallback
  {
    forall k | 0 <= k < |Table|
      ensures !JsText.Includes(text, Table[k].0)
    {
      MissingChar(text, Table[k].0, missing[k]);
    }
    TableFallback(text);
  }

  /** A clean text that is no misspelling is matched as it stands. */
  lemma CleanTextUnchanged(text: string)
    requires forall k :: 0 <= k < |text| ==> IsCleanChar(text[k])
    requires text != [] ==> text[0] != ' ' && text[|text| - 1] != ' '
    requires text !in Corrections
    ensures CorrectSpelling(Clean(text)) == text
  {
    CleanFixed(text);
  }
}
