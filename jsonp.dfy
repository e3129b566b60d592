/** The envelope stripping that runs before `json_decode` in `_cackleJsonDecode`. */
module Jsonp {
  import opened Php

  const Callback := "jQuery("
  const Close := ");"

  /**
   * When the response mentions the callback anywhere, every non-overlapping
   * `jQuery(` is removed, then every `);` of what is left; otherwise the
   * response passes through untouched.
   */
  function Strip(response: string): (r: string)
    ensures !Contains(response, Callback) ==> r == response
    ensures |r| <= |response|
  {
    if Contains(response, Callback) then RemoveAll(RemoveAll(response, Callback), Close)
    else response
  }

  /** Appending `);` cannot create a `jQuery(`, since that ends in `(`. */
  lemma {:induction false} CloseAddsNoCallback(p: string)
    requires !Contains(p, Callback)
    ensures !Contains(p + Close, Callback)
  {
    var s := p + Close;
    if |p| >= |Callback| {
      assert s[..|Callback|] == p[..|Callback|];
    } else if |p| == 6 {
      assert s[..|Callback|][6] == ')';
    } else if |p| == 5 {
      assert s[..|Callback|][6] == ';';
    }
    assert !StartsWith(s, Callback);
    if p == [] {
      assert s == Close;
      ShortDoesNotContain(Close, Callback);
    } else {
      assert s[1..] == p[1..] + Close;
      CloseAddsNoCallback(p[1..]);
    }
  }

  /** Removing `);` from `p + ");"` gives back `p` when `p` has none. */
  lemma {:induction false} DropTrailingClose(p: string)
    requires !Contains(p, Close)
    ensures RemoveAll(p + Close, Close) == p
  {
    var s := p + Close;
    if p == [] {
      RemoveAllLeading(Close, []);
    } else {
      if |p| >= |Close| {
        assert s[..|Close|] == p[..|Close|];
      } else {
        assert s[..|Close|][1] == ')';
      }
      assert !StartsWith(s, Close);
      assert s[1..] == p[1..] + Close;
      DropTrailingClose(p[1..]);
      assert [p[0]] + p[1..] == p;
    }
  }

  /** Stripping undoes the `jQuery(...);` envelope around a payload that
      mentions neither token. */
  lemma StripUnwraps(p: string)
    requires !Contains(p, Callback) && !Contains(p, Close)
    ensures Strip(Callback + p + Close) == p
  {
    var s := Callback + p + Close;
    assert s == Callback + (p + Close);
    assert StartsWith(s, Callback);
    RemoveAllLeading(Callback, p + Close);
    CloseAddsNoCallback(p);
    RemoveAllAbsent(p + Close, Callback);
    DropTrailingClose(p);
  }

  /** A `);` inside the payload is lost as well: the removal is not confined
      to the envelope. */
  lemma StripDamagesPayload()
    ensures Strip(Callback + "[\");\"]" + Close) == "[\"\"]"
  {
    var p := "[\");\"]";
    assert !Contains(p, Callback) by { ShortDoesNotContain(p, Callback); }
    var s := Callback + p + Close;
    assert s == Callback + (p + Close);
    assert StartsWith(s, Callback);
    RemoveAllLeading(Callback, p + Close);
    CloseAddsNoCallback(p);
    RemoveAllAbsent(p + Close, Callback);
    // what is left after the callback is gone: [ " ); " ] );
    var tail := [']'] + Close;
    var t := ['['] + (['"'] + (Close + (['"'] + tail)));
    PayloadPieces();
    RemoveAllLeading(Close, []);
    assert Close + [] == Close;
    assert ([']'] + (Close))[0] != Close[0];
    RemoveAllKeeps(']', Close, Close);
    assert (['"'] + (tail))[0] != Close[0];
    RemoveAllKeeps('"', tail, Close);
    RemoveAllLeading(Close, ['"'] + tail);
    assert (['"'] + (Close + (['"'] + tail)))[0] != Close[0];
    RemoveAllKeeps('"', Close + (['"'] + tail), Close);
    assert (['['] + (['"'] + (Close + (['"'] + tail))))[0] != Close[0];
    RemoveAllKeeps('[', ['"'] + (Close + (['"'] + tail)), Close);
    EmptiedPayload();
  }

  lemma PayloadPieces()
    ensures "[\");\"]" + Close == ['['] + (['"'] + (Close + (['"'] + ([']'] + Close))))
  {
  }

  lemma EmptiedPayload()
    ensures ['['] + (['"'] + (['"'] + ([']'] + []))) == "[\"\"]"
  {
  }
}
