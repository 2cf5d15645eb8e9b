/** The text of a value as it is written (`encode_json_value` in scripts/sanitize_nim_capture.py):
    compact, in order, and ASCII. */
module JsonPunctuation {
  import Text
  import opened JsonValues
  import opened JsonText

  function Commas(parts: seq<string>): string {
    if parts == [] then "" else Text.Join(parts, ",")
  }

  lemma {:induction false} ItemsJoined(items: seq<Json>, parts: seq<string>)
    requires |parts| == |items| && forall i :: 0 <= i < |items| ==> parts[i] == Encode(items[i])
    ensures EncodeItems(items) == Commas(parts)
  {
    if |items| > 1 {
      ItemsJoined(items[1..], parts[1..]);
      assert parts[0] + "," + Text.Join(parts[1..], ",") == parts[0] + ("," + Text.Join(parts[1..], ","));
    } else if |items| == 1 {
      assert Encode(items[0]) + "" == Encode(items[0]);
    }
  }

  lemma {:induction false} PairsJoined(pairs: seq<Member>, parts: seq<string>)
    requires |parts| == |pairs|
    requires forall i :: 0 <= i < |pairs| ==> parts[i] == Quote(pairs[i].name) + ":" + Encode(pairs[i].value)
    ensures EncodePairs(pairs) == Commas(parts)
  {
    if |pairs| > 1 {
      PairsJoined(pairs[1..], parts[1..]);
      assert parts[0] + "," + Text.Join(parts[1..], ",") == parts[0] + ("," + Text.Join(parts[1..], ","));
    } else if |pairs| == 1 {
      assert parts[0] + "" == parts[0];
    }
  }

  /** Lists and objects are written without any space, in order, duplicate names included. */
  lemma EncodedParts(v: Json, parts: seq<string>)
    requires v.Arr? ==> |parts| == |v.items| && forall i :: 0 <= i < |parts| ==> parts[i] == Encode(v.items[i])
    requires v.Obj? ==> |parts| == |v.pairs|
    requires v.Obj? ==> forall i :: 0 <= i < |parts| ==> parts[i] == Quote(v.pairs[i].name) + ":" + Encode(v.pairs[i].value)
    ensures v.Arr? ==> Encode(v) == "[" + Commas(parts) + "]"
    ensures v.Obj? ==> Encode(v) == "{" + Commas(parts) + "}"
  {
    if v.Arr? { ItemsJoined(v.items, parts); }
    if v.Obj? { PairsJoined(v.pairs, parts); }
  }

  /** A quoted text: between two quotes, printable ASCII stands for itself but for the quote and the
      backslash, and six characters have a short escape. */
  lemma QuotedCharacter(c: char, s: string)
    ensures Quote("") == "\"\"" && Quote(s) == "\"" + EscapeAll(s) + "\"" && EscapeAll([c] + s) == Escape(c) + EscapeAll(s)
    ensures ' ' <= c <= '~' && c != '"' && c != '\\' ==> Escape(c) == [c]
    ensures c == '"' ==> Escape(c) == ['\\', '"']
    ensures c == '\\' ==> Escape(c) == ['\\', '\\']
    ensures c == '\n' ==> Escape(c) == ['\\', 'n']
    ensures c == '\r' ==> Escape(c) == ['\\', 'r']
    ensures c == '\t' ==> Escape(c) == ['\\', 't']
    ensures c == '\U{8}' ==> Escape(c) == ['\\', 'b']
    ensures c == '\U{C}' ==> Escape(c) == ['\\', 'f']
    ensures AllPrintable(Escape(c))
  {
    EscapePrintable(c);
    assert ([c] + s)[1..] == s;
  }
}
