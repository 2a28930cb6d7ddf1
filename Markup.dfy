/**
 * The console's markup (static/js/index.js): `escapeHTML` puts a text into a
 * text node and reads back `innerHTML`, which applies the "escaping a string"
 * step of the HTML serialisation algorithm (section 13.3 of the HTML Living
 * Standard) in text mode: `&` becomes `&amp;`, U+00A0 becomes `&nbsp;`, `<`
 * becomes `&lt;`, `>` becomes `&gt;`, and every other character, quotes
 * included, stays. `getRuleHtml` builds one rule's list item around it.
 */
module Markup {
  import Decimal

  const NoBreakSpace: char := '\U{00A0}'

  /** The characters text-mode escaping rewrites. */
  predicate IsEscaped(c: char) {
    c == '&' || c == NoBreakSpace || c == '<' || c == '>'
  }

  function EscapeChar(c: char): (r: string)
    ensures !IsEscaped(c) ==> r == [c]
    ensures IsEscaped(c) ==> 4 <= |r| <= 6 && r[0] == '&' && r[|r| - 1] == ';'
    ensures forall i :: 0 <= i < |r| ==> r[i] != '<' && r[i] != '>'
  {
    if c == '&' then "&amp;"
    else if c == NoBreakSpace then "&nbsp;"
    else if c == '<' then "&lt;"
    else if c == '>' then "&gt;"
    else [c]
  }

  function EscapeHtml(s: string): (r: string)
    ensures forall i :: 0 <= i < |r| ==> r[i] != '<' && r[i] != '>'
  {
    if s == [] then [] else EscapeChar(s[0]) + EscapeHtml(s[1..])
  }

  /**
   * How an HTML parser reads text back: the four character references that
   * escaping produces stand for their characters; anything else is itself.
   */
  function Unescape(s: string): string
    decreases |s|
  {
    if s == [] then []
    else if s[0] != '&' then [s[0]] + Unescape(s[1..])
    else if |s| >= 5 && s[1..5] == "amp;" then ['&'] + Unescape(s[5..])
    else if |s| >= 6 && s[1..6] == "nbsp;" then [NoBreakSpace] + Unescape(s[6..])
    else if |s| >= 4 && s[1..4] == "lt;" then ['<'] + Unescape(s[4..])
    else if |s| >= 4 && s[1..4] == "gt;" then ['>'] + Unescape(s[4..])
    else ['&'] + Unescape(s[1..])
  }

  lemma {:induction false} UnescapeEscapeChar(c: char, rest: string)
    ensures Unescape(EscapeChar(c) + rest) == [c] + Unescape(rest)
  {
    var s := EscapeChar(c) + rest;
    var n := |EscapeChar(c)|;
    assert s[n..] == rest;
    if c == '&' {
      assert s[1..5] == "amp;";
    } else if c == NoBreakSpace {
      assert s[1..5][0] == 'n' && s[1..6] == "nbsp;";
    } else if c == '<' {
      assert s[1] == 'l' && s[1..4] == "lt;";
      assert |s| >= 5 ==> s[1..5][0] == 'l';
      assert |s| >= 6 ==> s[1..6][0] == 'l';
    } else if c == '>' {
      assert s[1] == 'g' && s[1..4] == "gt;" && s[1..4][0] == 'g';
      assert |s| >= 5 ==> s[1..5][0] == 'g';
      assert |s| >= 6 ==> s[1..6][0] == 'g';
    }
  }

  /** Escaping loses nothing: the page shows exactly the text that was escaped. */
  lemma {:induction false} UnescapeEscape(s: string)
    ensures Unescape(EscapeHtml(s)) == s
  {
    if s != [] {
      UnescapeEscapeChar(s[0], EscapeHtml(s[1..]));
      UnescapeEscape(s[1..]);
      assert [s[0]] + s[1..] == s;
    }
  }

  /** Escaping is character by character, so it distributes over concatenation. */
  lemma {:induction false} EscapeAppend(s: string, t: string)
    ensures EscapeHtml(s + t) == EscapeHtml(s) + EscapeHtml(t)
  {
    if s == [] {
      assert s + t == t;
    } else {
      assert (s + t)[0] == s[0] && (s + t)[1..] == s[1..] + t;
      EscapeAppend(s[1..], t);
    }
  }

  /** Text without the four special characters, quotes included, is left as it is. */
  lemma {:induction false} EscapeIdentity(s: string)
    requires forall i :: 0 <= i < |s| ==> !IsEscaped(s[i])
    ensures EscapeHtml(s) == s
  {
    if s != [] {
      EscapeIdentity(s[1..]);
    }
  }

  /** Escaping printable ASCII gives printable ASCII. */
  lemma {:induction false} EscapePrintable(s: string)
    requires forall i :: 0 <= i < |s| ==> 32 <= s[i] as int <= 126
    ensures forall i :: 0 <= i < |EscapeHtml(s)| ==> 32 <= EscapeHtml(s)[i] as int <= 126
  {
    if s != [] {
      EscapePrintable(s[1..]);
      var head, tail := EscapeChar(s[0]), EscapeHtml(s[1..]);
      assert EscapeHtml(s) == head + tail;
      forall i | 0 <= i < |head + tail| ensures 32 <= (head + tail)[i] as int <= 126 {
        if i >= |head| { assert (head + tail)[i] == tail[i - |head|]; }
      }
    }
  }

  /** The element id `getRuleHtml` gives a rule's list item. */
  function DomId(id: int): string {
    "rule-" + Decimal.IntToString(id)
  }

  /** Rules with different ids get different element ids. */
  lemma {:induction false} DomIdInjective(a: int, b: int)
    ensures DomId(a) == DomId(b) <==> a == b
  {
    if DomId(a) == DomId(b) {
      assert DomId(a)[5..] == Decimal.IntToString(a);
      assert DomId(b)[5..] == Decimal.IntToString(b);
      Decimal.IntToStringInjective(a, b);
    }
  }

  /** The template up to the rule's text: the item with its id, and the id shown. */
  function ItemHead(id: int): string {
    var n := Decimal.IntToString(id);
    "\n        <li id=\"" + DomId(id) + "\" class=\"list-group-item\">\n"
    + "            <div class=\"row\">\n"
    + "                <div class=\"col-1 d-flex align-items-center justify-content-center\">\n"
    + "                    " + n + "\n"
    + "                </div>\n"
    + "                <div class=\"col-10 d-flex align-items-center\">\n"
    + "                    "
  }

  /** The template after the rule's text: the delete button, which calls `deleteRule(id)`. */
  function ItemTail(id: int): string {
    var n := Decimal.IntToString(id);
    "\n                </div>\n"
    + "                <div class=\"col-1 d-flex align-items-center justify-content-center\">\n"
    + "                    <button class=\"btn btn-outline-danger\" onclick=\"deleteRule(" + n + ")\">\n"
    + "                        <i class=\"fa-regular fa-trash-can\"></i>\n"
    + "                    </button>\n"
    + "                </div>\n"
    + "            </div>\n"
    + "        </li>\n"
    + "    "
  }

  /** `getRuleHtml`: the list item of a rule whose text is already the display text. */
  function RuleHtml(id: int, text: string): string {
    ItemHead(id) + EscapeHtml(text) + ItemTail(id)
  }

  function Count(c: char, s: string): nat {
    if s == [] then 0 else (if s[0] == c then 1 else 0) + Count(c, s[1..])
  }

  lemma {:induction false} CountAppend(c: char, s: string, t: string)
    ensures Count(c, s + t) == Count(c, s) + Count(c, t)
  {
    if s == [] {
      assert s + t == t;
    } else {
      assert (s + t)[0] == s[0] && (s + t)[1..] == s[1..] + t;
      CountAppend(c, s[1..], t);
    }
  }

  lemma {:induction false} CountAbsent(c: char, s: string)
    requires forall i :: 0 <= i < |s| ==> s[i] != c
    ensures Count(c, s) == 0
  {
    if s != [] {
      CountAbsent(c, s[1..]);
    }
  }

  /**
   * No rule text can add markup: a rule's list item has exactly the `<` and
   * `>` of the item with an empty text, so every tag in it is the template's.
   */
  lemma {:induction false} RuleHtmlTagsIndependentOfText(id: int, text: string)
    ensures Count('<', RuleHtml(id, text)) == Count('<', RuleHtml(id, ""))
    ensures Count('>', RuleHtml(id, text)) == Count('>', RuleHtml(id, ""))
  {
    TagsAroundEscaped(ItemHead(id), text, ItemTail(id));
  }

  /** Escaped text between two strings adds no `<` and no `>` to them. */
  lemma {:induction false} TagsAroundEscaped(head: string, text: string, tail: string)
    ensures Count('<', head + EscapeHtml(text) + tail) == Count('<', head + EscapeHtml("") + tail)
    ensures Count('>', head + EscapeHtml(text) + tail) == Count('>', head + EscapeHtml("") + tail)
  {
    CountAbsent('<', EscapeHtml(text));
    CountAbsent('>', EscapeHtml(text));
    CountAbsent('<', EscapeHtml(""));
    CountAbsent('>', EscapeHtml(""));
    CountSameBody('<', head, EscapeHtml(text), EscapeHtml(""), tail);
    CountSameBody('>', head, EscapeHtml(text), EscapeHtml(""), tail);
  }

  /** Middle parts with as many of the character leave the same count with their surroundings. */
  lemma {:induction false} CountSameBody(c: char, head: string, body: string, other: string, tail: string)
    requires Count(c, body) == Count(c, other)
    ensures Count(c, head + body + tail) == Count(c, head + other + tail)
  {
    CountSandwich(c, head, body, tail);
    CountSandwich(c, head, other, tail);
  }

  lemma {:induction false} CountSandwich(c: char, head: string, body: string, tail: string)
    ensures Count(c, head + body + tail) == Count(c, head) + Count(c, body) + Count(c, tail)
  {
    CountAppend(c, head + body, tail);
    CountAppend(c, head, body);
  }

  /** The text between the template's halves reads back as the rule's text. */
  lemma {:induction false} RuleHtmlShowsText(id: int, text: string)
    ensures var html := RuleHtml(id, text);
      && |ItemHead(id)| + |ItemTail(id)| <= |html|
      && Unescape(html[|ItemHead(id)|..|html| - |ItemTail(id)|]) == text
  {
    var html := RuleHtml(id, text);
    assert html[|ItemHead(id)|..|html| - |ItemTail(id)|] == EscapeHtml(text);
    UnescapeEscape(text);
  }
}
