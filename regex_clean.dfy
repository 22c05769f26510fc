/** The value side of regex_clean_column: the pattern "[" + re.escape(chars) + "]"
    matches any one of the given characters literally, so replacing its matches
    by "" removes every occurrence of every one of them. */
module RegexClean {

  import opened Cells

  /** Removes every character of s that occurs in chars, keeping the rest in order. */
  function StripChars(s: string, chars: string): (r: string)
    ensures |r| <= |s|
  {
    if s == [] then []
    else (if s[0] in chars then [] else [s[0]]) + StripChars(s[1..], chars)
  }

  /** No character of chars survives, and every other character does. */
  lemma {:induction false} StripMembers(s: string, chars: string)
    ensures forall c :: c in StripChars(s, chars) <==> c in s && c !in chars
  {
    if s != [] {
      StripMembers(s[1..], chars);
      assert forall c :: c in s <==> c == s[0] || c in s[1..];
    }
  }

  /** Stripping works character by character: stripping a + b strips a, then b. */
  lemma {:induction false} StripAppend(a: string, b: string, chars: string)
    ensures StripChars(a + b, chars) == StripChars(a, chars) + StripChars(b, chars)
  {
    if a == [] {
      assert a + b == b;
    } else {
      assert (a + b)[1..] == a[1..] + b;
      StripAppend(a[1..], b, chars);
    }
  }

  /** A string holding none of the characters is left as it is. */
  lemma {:induction false} StripNothing(s: string, chars: string)
    requires forall k :: 0 <= k < |s| ==> s[k] !in chars
    ensures StripChars(s, chars) == s
  {
    if s != [] {
      StripNothing(s[1..], chars);
    }
  }

  /** Cleaning twice is cleaning once. */
  lemma StripIdempotent(s: string, chars: string)
    ensures StripChars(StripChars(s, chars), chars) == StripChars(s, chars)
  {
    var r := StripChars(s, chars);
    StripMembers(s, chars);
    assert forall k :: 0 <= k < |r| ==> r[k] in r;
    StripNothing(r, chars);
  }

  /** Characters are removed literally: "$" and "," out of "$1,200" leave "1200". */
  lemma StripCurrency()
    ensures StripChars("$1,200", "$,") == "1200"
  {
  }

  /** Regular-expression syntax is taken literally too: ".", "*" and "[" out of
      "a.b*[c" leave "abc". */
  lemma StripMetacharacters()
    ensures StripChars("a.b*[c", ".*[") == "abc"
  {
  }

  /** astype(str): the text of a cell. Missing values read "nan"; how a number is
      printed belongs to the table library and is a parameter here. */
  function AsText(c: Cell, render: real -> string): string
  {
    match c
    case Missing => "nan"
    case Num(x) => render(x)
    case Text(s) => s
  }

  /** The cleaned column: every cell becomes text. */
  function CleanColumn(col: seq<Cell>, chars: string, render: real -> string): (r: seq<Cell>)
    ensures |r| == |col|
    ensures forall i :: 0 <= i < |col| ==> r[i] == Text(StripChars(AsText(col[i], render), chars))
  {
    seq(|col|, i requires 0 <= i < |col| => Text(StripChars(AsText(col[i], render), chars)))
  }

  /** No cleaned cell holds a character of chars; every other character of its text is kept. */
  lemma CleanColumnStrips(col: seq<Cell>, chars: string, render: real -> string, i: nat)
    requires i < |col|
    ensures CleanColumn(col, chars, render)[i].Text?
    ensures forall c :: c in CleanColumn(col, chars, render)[i].s <==> c in AsText(col[i], render) && c !in chars
  {
    StripMembers(AsText(col[i], render), chars);
  }

  /** A text cell that already holds none of the characters is left as it is. */
  lemma CleanColumnKeepsClean(col: seq<Cell>, chars: string, render: real -> string, i: nat)
    requires i < |col| && col[i].Text?
    requires forall k :: 0 <= k < |col[i].s| ==> col[i].s[k] !in chars
    ensures CleanColumn(col, chars, render)[i] == col[i]
  {
    StripNothing(col[i].s, chars);
  }

  /** Cleaning a cleaned column changes nothing. */
  lemma {:induction false} CleanColumnIdempotent(col: seq<Cell>, chars: string, render: real -> string)
    ensures CleanColumn(CleanColumn(col, chars, render), chars, render) == CleanColumn(col, chars, render)
  {
    var r := CleanColumn(col, chars, render);
    forall i | 0 <= i < |col|
      ensures CleanColumn(r, chars, render)[i] == r[i]
    {
      StripIdempotent(AsText(col[i], render), chars);
    }
  }

  /** The pattern "[" + re.escape(chars) + "]" is refused by the regular-expression
      engine exactly when chars is empty: "[]" is an unterminated character set. */
  predicate Refused(chars: string)
  {
    chars == []
  }
}
