/**
 * write() opens its SaveFile with QIODevice::WriteOnly | QIODevice::Text.
 * On Windows a device in text mode stores every line feed written to it as
 * carriage return + line feed, so the binary AMAP image is altered wherever
 * one of its bytes happens to be 0x0A. This module states that translation
 * and shows a map whose header it corrupts; the rest of the model writes the
 * image untranslated, as a binary-mode open would.
 */
module TextMode {
  import opened Bytes
  import opened AmapFormat
  import opened Seqs

  const LF: byte := 0x0A
  const CR: byte := 0x0D

  /** The number of line-feed bytes in s. */
  function LineFeeds(s: seq<byte>): (n: nat)
    ensures n <= |s|
  {
    if |s| == 0 then 0 else (if s[0] == LF then 1 else 0) + LineFeeds(s[1..])
  }

  /** What a Windows device opened in text mode stores for the bytes s written to it. */
  function WindowsText(s: seq<byte>): (r: seq<byte>)
    ensures |r| == |s| + LineFeeds(s)
  {
    if |s| == 0 then [] else (if s[0] == LF then [CR, LF] else [s[0]]) + WindowsText(s[1..])
  }

  /** The translation leaves the bytes alone exactly when none of them is a line feed. */
  lemma {:induction false} UnchangedIffNoLineFeed(s: seq<byte>)
    ensures WindowsText(s) == s <==> LineFeeds(s) == 0
  {
    if |s| > 0 && LineFeeds(s) == 0 {
      UnchangedIffNoLineFeed(s[1..]);
      assert s == [s[0]] + s[1..];
    }
  }

  /** A prefix without line feeds is stored as it is. */
  lemma {:induction false} NoLineFeedPrefix(s: seq<byte>, k: int)
    requires 0 <= k <= |s|
    requires forall j :: 0 <= j < k ==> s[j] != LF
    ensures WindowsText(s) == s[..k] + WindowsText(s[k..])
  {
    if k > 0 {
      var rest := s[1..];
      NoLineFeedPrefix(rest, k - 1);
      assert rest[k - 1..] == s[k..];
      assert s[..k] == [s[0]] + rest[..k - 1];
      assert WindowsText(s) == [s[0]] + WindowsText(rest);
      AppendAssoc([s[0]], rest[..k - 1], WindowsText(s[k..]));
    }
  }

  /**
   * A map 10 cells wide: byte 5 of the image, the low byte of the width, is
   * 0x0A. In text mode on Windows the stored file is longer than the image,
   * its byte 5 is 0x0D, and the width field reads back as something else.
   */
  lemma Width10Corrupted(m: Map)
    requires m.width == 10
    ensures var stored := WindowsText(Encode(m));
      && |stored| > |Encode(m)|
      && stored[5] == CR
      && U32Of(stored[5..9]) != m.width
  {
    var s := Encode(m);
    HeaderLayout(m);
    assert s[5..9][0] == s[5];
    assert s[5] == LF;
    forall j | 0 <= j < 5
      ensures s[j] != LF
    {
      if j < 4 {
        assert s[j] == s[..4][j];
      }
    }
    NoLineFeedPrefix(s, 5);
    var tail := s[5..];
    assert tail[0] == LF;
    assert WindowsText(tail) == [CR, LF] + WindowsText(tail[1..]);
    var stored := WindowsText(s);
    assert stored[5] == CR;
    assert stored[5..9][0] == CR;
  }
}
