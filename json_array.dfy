/** The JSON text of an array of strings, as the admin form sends the
    `uses` field (`JSON.stringify(usesArray)`), and the part of `JSON.parse`
    that reads it back.  Only items without a quote, a backslash or a
    control character are covered, so that no escape sequence arises. */
module JsonArray {
  import opened Wrappers

  /** An item `JSON.stringify` writes between two quotes unchanged. */
  predicate IsPlainItem(x: string) {
    forall i :: 0 <= i < |x| ==> x[i] != '"' && x[i] != '\\' && x[i] as int >= 0x20
  }

  function Quote(x: string): string {
    ['"'] + x + ['"']
  }

  /** The items of the array, separated by commas, without brackets. */
  function EncodeItems(xs: seq<string>): string {
    if |xs| == 0 then []
    else if |xs| == 1 then Quote(xs[0])
    else Quote(xs[0]) + [','] + EncodeItems(xs[1..])
  }

  /** `JSON.stringify(xs)` for an array of plain strings. */
  function Encode(xs: seq<string>): string {
    ['['] + EncodeItems(xs) + [']']
  }

  /** Index of the first quote in `t` at or after `i`, or `|t|` if none. */
  function ClosingQuote(t: string, i: nat): (r: nat)
    requires i <= |t|
    ensures i <= r <= |t|
    ensures r < |t| ==> t[r] == '"'
    decreases |t| - i
  {
    if i == |t| then |t|
    else if t[i] == '"' then i
    else ClosingQuote(t, i + 1)
  }

  /** Every item of a list is plain. */
  predicate AllPlain(xs: seq<string>) {
    forall i :: 0 <= i < |xs| ==> IsPlainItem(xs[i])
  }

  /** Splits `"item","item",...` into its quoted items, up to the end of
      `t`; an item ends at the first quote after its opening one. */
  function ParseItems(t: string): Option<seq<string>>
    decreases |t|
  {
    if t == [] || t[0] != '"' then None
    else
      var j := ClosingQuote(t, 1);
      if j == |t| then None
      else
        var item := t[1..j];
        var rest := t[j + 1..];
        if rest == [] then Some([item])
        else if rest[0] != ',' then None
        else
          match ParseItems(rest[1..])
          case None => None
          case Some(more) => Some([item] + more)
  }

  /** `JSON.parse` restricted to compact arrays of plain strings; every
      other text, an item with an escape or a control character included,
      is reported as a parse failure. */
  function Parse(s: string): Option<seq<string>> {
    if |s| < 2 || s[0] != '[' || s[|s| - 1] != ']' then None
    else
      var inner := s[1..|s| - 1];
      if inner == [] then Some([])
      else
        match ParseItems(inner)
        case Some(xs) => if AllPlain(xs) then Some(xs) else None
        case None => None
  }

  /** The search stops at the first quote after a run without one. */
  lemma {:induction false} ClosingQuoteAt(t: string, i: nat, r: nat)
    requires i <= r < |t| && t[r] == '"'
    requires forall k :: i <= k < r ==> t[k] != '"'
    ensures ClosingQuote(t, i) == r
    decreases r - i
  {
    if i < r {
      ClosingQuoteAt(t, i + 1, r);
    }
  }

  /** The first quoted item of `Quote(x) + tail` is `x`. */
  lemma ReadQuoted(x: string, tail: string)
    requires IsPlainItem(x)
    ensures var t := Quote(x) + tail;
      ClosingQuote(t, 1) == |x| + 1 && t[1..|x| + 1] == x && t[|x| + 2..] == tail
  {
    var t := Quote(x) + tail;
    assert t[|x| + 1] == '"';
    assert forall k :: 1 <= k < |x| + 1 ==> t[k] == x[k - 1];
    ClosingQuoteAt(t, 1, |x| + 1);
  }

  /** Reading a quoted plain item followed by a comma reads the rest. */
  lemma ParseItemsStep(x: string, t: string)
    requires IsPlainItem(x)
    ensures ParseItems(Quote(x)) == Some([x])
    ensures ParseItems(Quote(x) + [','] + t) ==
      match ParseItems(t) case None => None case Some(more) => Some([x] + more)
  {
    ReadQuoted(x, []);
    assert Quote(x) + [] == Quote(x);
    ReadQuoted(x, [','] + t);
    assert Quote(x) + [','] + t == Quote(x) + ([','] + t);
    assert ([','] + t)[1..] == t;
  }

  /** The item reader reads back what `EncodeItems` writes. */
  lemma {:induction false} ParseEncodeItems(xs: seq<string>)
    requires |xs| >= 1
    requires AllPlain(xs)
    ensures ParseItems(EncodeItems(xs)) == Some(xs)
    decreases |xs|
  {
    if |xs| == 1 {
      ParseItemsStep(xs[0], []);
      assert EncodeItems(xs) == Quote(xs[0]);
      assert [xs[0]] == xs;
    } else {
      ParseEncodeItems(xs[1..]);
      ParseItemsStep(xs[0], EncodeItems(xs[1..]));
      assert [xs[0]] + xs[1..] == xs;
    }
  }

  /** Round trip: what the admin form encodes, the backend parses back. */
  lemma ParseEncode(xs: seq<string>)
    requires AllPlain(xs)
    ensures Parse(Encode(xs)) == Some(xs)
  {
    var s := Encode(xs);
    assert s[1..|s| - 1] == EncodeItems(xs);
    if |xs| >= 1 {
      ParseEncodeItems(xs);
    }
  }

  /** A text opening with a quote that closes at `j` and then a comma is
      the quoted item, the comma and the rest. */
  lemma QuoteSplit(t: string, j: nat)
    requires 1 <= j < |t| && t[0] == '"' && t[j] == '"'
    ensures j + 1 == |t| ==> t == Quote(t[1..j])
    ensures j + 1 < |t| && t[j + 1] == ',' ==> t == Quote(t[1..j]) + [','] + t[j + 2..]
  {
    if j + 1 == |t| {
      assert t == [t[0]] + t[1..j] + [t[j]];
    } else if t[j + 1] == ',' {
      assert t == [t[0]] + t[1..j] + [t[j]] + [t[j + 1]] + t[j + 2..];
    }
  }

  /** What a successful read of the items consists of: a quoted item,
      then either the end or a comma and more items. */
  lemma ParseItemsShape(t: string, xs: seq<string>)
    requires ParseItems(t) == Some(xs)
    ensures var j := ClosingQuote(t, 1);
      && 1 <= j < |t| && t[0] == '"' && t[j] == '"'
      && (j + 1 == |t| ==> xs == [t[1..j]])
      && (j + 1 < |t| ==>
            && t[j + 1] == ','
            && ParseItems(t[j + 2..]).Some?
            && xs == [t[1..j]] + ParseItems(t[j + 2..]).value)
  {
    var j := ClosingQuote(t, 1);
    var rest := t[j + 1..];
    if j + 1 < |t| {
      assert rest[1..] == t[j + 2..];
    }
  }

  /** Writing one more item in front adds it and a comma. */
  lemma EncodeCons(item: string, more: seq<string>)
    requires |more| >= 1
    ensures EncodeItems([item] + more) == Quote(item) + [','] + EncodeItems(more)
  {
    assert ([item] + more)[1..] == more;
  }

  /** The item reader accepts only what `EncodeItems` writes. */
  lemma {:induction false} EncodeParseItems(t: string, xs: seq<string>)
    requires ParseItems(t) == Some(xs)
    ensures |xs| >= 1 && EncodeItems(xs) == t
    decreases |t|
  {
    ParseItemsShape(t, xs);
    var j := ClosingQuote(t, 1);
    QuoteSplit(t, j);
    if j + 1 < |t| {
      var more := ParseItems(t[j + 2..]).value;
      EncodeParseItems(t[j + 2..], more);
      EncodeCons(t[1..j], more);
    }
  }

  /** Converse round trip: a text `Parse` accepts is the canonical encoding
      of what it returns. */
  lemma EncodeParse(s: string, xs: seq<string>)
    requires Parse(s) == Some(xs)
    ensures Encode(xs) == s
    ensures AllPlain(xs)
  {
    var inner := s[1..|s| - 1];
    assert s == ['['] + inner + [']'];
    if inner != [] {
      EncodeParseItems(inner, xs);
    }
  }
}
