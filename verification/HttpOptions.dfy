/** When the parser separates the options of a connection header as the list was written, and when it does not. */
module HttpOptions {
  import opened HttpBytes
  import opened HttpParserState
  import opened HttpHeaders
  import opened HttpValues

  /** Something that can be an option: it holds no comma and begins with a byte that begins an item. */
  predicate OptionOk(item: seq<byte>) {
    item != [] && StartsItem(item[0]) && COMMA !in item
  }

  predicate OptionsOk(items: seq<seq<byte>>) {
    items != [] && forall i :: 0 <= i < |items| ==> OptionOk(items[i])
  }

  /** The options in a row, with a comma and a space between them. */
  function List(items: seq<seq<byte>>): seq<byte>
    requires items != []
  {
    if |items| == 1 then items[0] else items[0] + [COMMA, SP] + List(items[1..])
  }

  /** No option but the last is the beginning of "keep-alive", "close" or "upgrade". */
  predicate NoneAbbreviated(items: seq<seq<byte>>) {
    forall i :: 0 <= i < |items| - 1 ==> !Abbreviates(items[i])
  }

  lemma FirstEnd(item: seq<byte>, rest: seq<byte>)
    requires OptionOk(item)
    ensures var s := item + [COMMA] + rest;
      s != [] && (ItemEnd(s, 0) == |item| <==> !Abbreviates(item))
  {
    hide Abbreviates;
    var s, n := item + [COMMA] + rest, |item|;
    assert s[..n] == item && s[n] == COMMA;
    assert forall k :: 0 <= k < n ==> s[k] == item[k];
    assert EndsItem(s, n) <==> !Abbreviates(item);
    assert ItemEnd(s, 0) >= n;
  }

  lemma OnlyEnd(item: seq<byte>)
    requires OptionOk(item)
    ensures Items(item) == [item]
  {
    assert ItemEnd(item, 0) == |item|;
    assert item[..|item|] == item;
  }

  /** A list is separated as it was written exactly if no option but the last is abbreviated. */
  lemma {:induction false} ItemsOfList(items: seq<seq<byte>>)
    requires OptionsOk(items)
    ensures List(items) != [] && StartsItem(List(items)[0])
    ensures Items(List(items)) == items <==> NoneAbbreviated(items)
    decreases |items|
  {
    hide Abbreviates;
    hide Items;
    hide OptionOk;
    var item, rest := items[0], items[1..];
    if |items| == 1 {
      OnlyEnd(item);
      assert items == [item];
      OptionFirst(item);
    } else {
      ItemsOfList(rest);
      var tail := [SP] + List(rest);
      FirstEnd(item, tail);
      OptionFirst(item);
      assert List(items) == item + [COMMA] + tail;
      SplitAt(item, tail);
      assert LaterItems(tail) == LaterItems(tail[1..]) && tail[1..] == List(rest);
      assert LaterItems(List(rest)) == Items(List(rest));
      assert items == [item] + rest;
      assert NoneAbbreviated(items) <==> !Abbreviates(item) && NoneAbbreviated(rest) by {
        if !Abbreviates(item) && NoneAbbreviated(rest) {
          forall i | 0 <= i < |items| - 1 ensures !Abbreviates(items[i]) {
            assert i > 0 ==> items[i] == rest[i - 1];
          }
        }
        if NoneAbbreviated(items) {
          forall i | 0 <= i < |rest| - 1 ensures !Abbreviates(rest[i]) {
            assert rest[i] == items[i + 1];
          }
        }
      }
    }
  }

  lemma OptionFirst(item: seq<byte>)
    requires OptionOk(item)
    ensures item != [] && StartsItem(item[0]) && item[0] != SP
  {
  }

  lemma SplitAt(item: seq<byte>, rest: seq<byte>)
    requires item != []
    ensures var s := item + [COMMA] + rest;
      && (ItemEnd(s, 0) == |item| ==> Items(s) == [item] + LaterItems(rest))
      && (ItemEnd(s, 0) != |item| ==> Items(s)[0] != item)
  {
    var s := item + [COMMA] + rest;
    assert s[..|item|] == item && s[|item| + 1..] == rest;
  }

  lemma {:induction false} NamedExists(items: seq<seq<byte>>, option: seq<byte>)
    ensures Named(items, option) <==> exists item :: item in items && Padded(item, option)
    decreases |items|
  {
    hide Padded;
    if items != [] {
      NamedExists(items[1..], option);
      assert items == [items[0]] + items[1..];
    }
  }

  /** In such a list an option is recognised exactly if it is one of the items, in any case. */
  lemma OptionRecognised(items: seq<seq<byte>>, option: seq<byte>)
    requires OptionsOk(items) && NoneAbbreviated(items)
    ensures Named(Items(List(items)), option) <==> exists item :: item in items && Padded(item, option)
  {
    ItemsOfList(items);
    NamedExists(items, option);
  }

  /** "keep, close": the comma is read as part of "keep", and "close" is not seen. */
  lemma KeepHidesClose()
    ensures var keep := KEEP_ALIVE[..4];
      && OptionsOk([keep, CLOSE]) && Abbreviates(keep)
      && Items(List([keep, CLOSE])) == [keep + [COMMA, SP] + CLOSE]
      && !Named(Items(List([keep, CLOSE])), CLOSE)
  {
    var keep := KEEP_ALIVE[..4];
    var s := keep + [COMMA, SP] + CLOSE;
    assert [keep, CLOSE][1..] == [CLOSE];
    assert List([keep, CLOSE]) == s;
    assert Folded(keep) == KEEP_ALIVE[..|keep|];
    assert s[..4] == keep;
    assert !EndsItem(s, 4);
    assert ItemEnd(s, 0) == |s|;
    assert s[..|s|] == s;
    assert Items(s) == [s];
    assert Folded(s[..5])[0] == 107;
    NamedOne(s);
  }
}
