/**
 * Turning what the model service returns into the answer text that the page
 * shows: the `text` of each reply fragment joined in order (manju.py lines
 * 63-66 and 86), then the stray role tokens removed and the ends stripped
 * (lines 69 and 89).
 */
module Reply {
  import opened PyStr

  /** Why an action failed. `LibraryError` is anything the image library or
      the model client raises (opaque here); the other two are the Python
      errors the script's own expressions raise. */
  datatype Failure =
    | LibraryError(detail: string)
    | JoinTypeError      // `"".join` met an item that is `None`
    | NoneHasNoReplace   // `.replace` called on `None`

  datatype Result<+T> = Ok(value: T) | Err(error: Failure)

  datatype Option<+T> = None | Some(value: T)

  /** The `text` attribute of a response object or fragment: absent
      (`hasattr` is false), present but `None`, or a string. */
  datatype Attr = Missing | NoneValue | Str(s: string)

  datatype Part = Part(text: Attr)

  /** A `generate_content` response: whether it is iterable, its own `text`
      attribute, and the fragments iteration yields. */
  datatype Response = Response(iterable: bool, text: Attr, parts: seq<Part>)

  /** The `text` of each fragment that has the attribute, in stream order;
      a `text` that is Python's `None` is kept as `Option.None`. */
  function Texts(parts: seq<Part>): (r: seq<Option<string>>)
    ensures |r| <= |parts|
  {
    if parts == [] then []
    else
      var rest := Texts(parts[1..]);
      match parts[0].text
      case Missing => rest
      case NoneValue => [None] + rest
      case Str(t) => [Some(t)] + rest
  }

  /** `"".join(items)`: the items concatenated in order; a `None` item
      raises `TypeError`. */
  function Join(items: seq<Option<string>>): (r: Result<string>)
    ensures r.Ok? <==> forall k :: 0 <= k < |items| ==> items[k].Some?
    ensures r.Err? ==> r.error == JoinTypeError
  {
    if items == [] then Ok("")
    else match (items[0], Join(items[1..]))
      case (Some(t), Ok(u)) => Ok(t + u)
      case _ => Err(JoinTypeError)
  }

  /** The texts of the fragments that have one, joined with the empty
      separator (manju.py lines 64 and 86). */
  function JoinTexts(parts: seq<Part>): Result<string> {
    Join(Texts(parts))
  }

  /** What a fragment contributes to the joined reply: its text, or nothing
      when it has no `text` attribute. */
  function TextOf(p: Part): string {
    if p.text.Str? then p.text.s else ""
  }

  /** What each fragment contributes, in stream order. */
  function Contributions(parts: seq<Part>): (r: seq<string>)
    ensures |r| == |parts| && forall k :: 0 <= k < |parts| ==> r[k] == TextOf(parts[k])
  {
    seq(|parts|, k requires 0 <= k < |parts| => TextOf(parts[k]))
  }

  /** The strings of a sequence, concatenated in order. */
  function Concat(xs: seq<string>): string {
    if xs == [] then "" else xs[0] + Concat(xs[1..])
  }

  predicate HasNoneText(parts: seq<Part>) {
    exists k | 0 <= k < |parts| :: parts[k].text.NoneValue?
  }

  /** The join fails exactly when some fragment's `text` is `None`; otherwise
      it is the in-order concatenation of the texts of the fragments that
      have one. */
  lemma {:induction false} JoinTextsIsConcat(parts: seq<Part>)
    ensures JoinTexts(parts).Err? <==> HasNoneText(parts)
    ensures !HasNoneText(parts) ==>
              JoinTexts(parts) == Ok(Concat(Contributions(parts)))
  {
    var each := Contributions(parts);
    if parts != [] {
      var tail := parts[1..];
      JoinTextsIsConcat(tail);
      var eachTail := Contributions(tail);
      assert each[1..] == eachTail;
      assert HasNoneText(parts) <==> parts[0].text.NoneValue? || HasNoneText(tail) by {
        if HasNoneText(tail) {
          var k :| 0 <= k < |tail| && tail[k].text.NoneValue?;
          assert parts[k + 1] == tail[k];
        }
        if HasNoneText(parts) && !parts[0].text.NoneValue? {
          var k :| 0 <= k < |parts| && parts[k].text.NoneValue?;
          assert tail[k - 1] == parts[k];
        }
      }
      match parts[0].text
      case Missing =>
        assert Texts(parts) == Texts(tail);
        assert Concat(each) == each[0] + Concat(each[1..]);
        assert each[0] == "";
        assert "" + Concat(eachTail) == Concat(eachTail);
      case NoneValue =>
      case Str(t) =>
        assert Texts(parts) == [Some(t)] + Texts(tail);
        assert (Texts(parts))[1..] == Texts(tail);
    }
  }

  lemma {:induction false} TextsAppend(a: seq<Part>, b: seq<Part>)
    ensures Texts(a + b) == Texts(a) + Texts(b)
  {
    if a != [] {
      assert (a + b)[1..] == a[1..] + b;
      TextsAppend(a[1..], b);
    } else {
      assert a + b == b;
    }
  }

  lemma {:induction false} JoinAppend(x: seq<Option<string>>, y: seq<Option<string>>)
    ensures Join(x + y).Ok? <==> Join(x).Ok? && Join(y).Ok?
    ensures Join(x + y).Ok? ==> Join(x + y).value == Join(x).value + Join(y).value
  {
    if x != [] {
      assert (x + y)[0] == x[0] && (x + y)[1..] == x[1..] + y;
      JoinAppend(x[1..], y);
    } else {
      assert x + y == y;
    }
  }

  /** Joining a stream split in two is joining each half: the reply of the
      whole stream is the reply of its first part followed by the reply of
      the rest, and it succeeds exactly when both halves do. */
  lemma JoinTextsAppend(a: seq<Part>, b: seq<Part>)
    ensures JoinTexts(a + b).Ok? <==> JoinTexts(a).Ok? && JoinTexts(b).Ok?
    ensures JoinTexts(a + b).Ok? ==> JoinTexts(a + b).value == JoinTexts(a).value + JoinTexts(b).value
  {
    TextsAppend(a, b);
    JoinAppend(Texts(a), Texts(b));
  }

  /** Reading more fragments only extends the reply: the text joined from a
      prefix of the stream is a prefix of the text joined from all of it. */
  lemma JoinTextsPrefix(a: seq<Part>, b: seq<Part>)
    requires JoinTexts(a + b).Ok?
    ensures JoinTexts(a).Ok? && JoinTexts(a).value <= JoinTexts(a + b).value
  {
    JoinTextsAppend(a, b);
  }

  /** An empty stream, or one whose fragments all lack `text`, gives "". */
  lemma {:induction false} JoinTextsTextless(parts: seq<Part>)
    requires forall k :: 0 <= k < |parts| ==> parts[k].text.Missing?
    ensures JoinTexts(parts) == Ok("")
  {
    if parts != [] {
      JoinTextsTextless(parts[1..]);
    }
  }

  /** The response text of manju.py lines 63-66: an iterable response without
      a `text` attribute is joined like a stream; otherwise its `text` is used,
      and "" when it has none. A `text` that is `None` is returned as
      `None`. */
  function ResponseText(resp: Response): (r: Result<Option<string>>)
    ensures resp.text.Str? ==> r == Ok(Some(resp.text.s))
    ensures resp.text.NoneValue? ==> r == Ok(None)
    ensures r.Err? ==> resp.iterable && resp.text.Missing? && HasNoneText(resp.parts)
    ensures r.Err? ==> r.error == JoinTypeError
    ensures resp.iterable && resp.text.Missing? ==> (r.Err? <==> HasNoneText(resp.parts))
    ensures resp.iterable && resp.text.Missing? && !HasNoneText(resp.parts) ==>
              r == Ok(Some(Concat(Contributions(resp.parts))))
    ensures !resp.iterable && resp.text.Missing? ==> r == Ok(Some(""))
  {
    if resp.iterable && resp.text.Missing? then
      JoinTextsIsConcat(resp.parts);
      match JoinTexts(resp.parts)
      case Ok(t) => Ok(Some(t))
      case Err(e) => Err(e)
    else
      match resp.text
      case Str(t) => Ok(Some(t))
      case Missing => Ok(Some(""))
      case NoneValue => Ok(None)
  }

  const UserToken := "role - user"
  const ModelToken := "role - model"

  /** Every `role - user` removed in one pass, then every `role - model`,
      then the ends stripped (manju.py lines 69 and 89): never longer than
      the input, and no whitespace at either end. */
  function Cleanup(text: string): (r: string)
    ensures IsStripped(r) && |r| <= |text|
  {
    var once := ReplaceAll(text, UserToken, "");
    var twice := ReplaceAll(once, ModelToken, "");
    RemoveAllShrinks(text, UserToken);
    RemoveAllShrinks(once, ModelToken);
    Strip(twice)
  }

  /** Text without either token is only stripped. */
  lemma CleanupWithoutTokens(text: string)
    requires !Contains(text, UserToken) && !Contains(text, ModelToken)
    ensures Cleanup(text) == Strip(text)
  {
    ReplaceAllAbsent(text, UserToken, "");
    ReplaceAllAbsent(text, ModelToken, "");
  }

  /** Text without either token and already stripped is left alone. */
  lemma CleanupIdentity(text: string)
    requires !Contains(text, UserToken) && !Contains(text, ModelToken)
    requires IsStripped(text)
    ensures Cleanup(text) == text
  {
    CleanupWithoutTokens(text);
    StripFixesStripped(text);
  }

  /** The cleaned answer may still contain `role - user`: removing one
      occurrence can join the two halves around it into a new one. */
  lemma CleanupCanLeaveUserToken(text: string)
    requires text == "role - urole - userser"
    ensures Cleanup(text) == UserToken
    ensures Contains(Cleanup(text), UserToken)
  {
    RemoveAllCanRecreate(text, UserToken);
    assert !OccursAt(UserToken, ModelToken, 0);
    ReplaceAllAbsent(UserToken, ModelToken, "");
    StripFixesStripped(UserToken);
    assert OccursAt(UserToken, UserToken, 0);
  }

  /** Cleanup is not idempotent: cleaning its own output can remove more. */
  lemma CleanupNotIdempotent(text: string)
    requires text == "role - urole - userser"
    ensures Cleanup(Cleanup(text)) != Cleanup(text)
  {
    CleanupCanLeaveUserToken(text);
    var p := UserToken;
    assert p[0..|p|] == p && OccursAt(p, p, 0);
    assert ReplaceFrom(p, p, "", |p|) == [];
    assert ReplaceAll(p, UserToken, "") == "";
  }
}
