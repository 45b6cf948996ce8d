/** Comment helpers (steem/utils.py, `is_comment` and `build_comment_url`). */
module Comments {
  import opened PyValue

  /**
   * `is_comment` (steem/utils.py:190-194): is the item a reply, i.e. does
   * its permlink start with `re-` and does it name a parent author? Python's
   * `and` gives `False` when the prefix
   * test fails and otherwise the parent author itself, so the result is a
   * value whose truthiness is the answer.
   */
  function IsComment(permlink: string, parentAuthor: string): (r: Value)
    ensures Truthy(r) <==> |permlink| >= 3 && permlink[..3] == "re-" && parentAuthor != ""
    ensures r == Bool(false) || r == Str(parentAuthor)
  {
    var prefix := if |permlink| < 3 then permlink else permlink[..3];
    if prefix == "re-" then Str(parentAuthor) else Bool(false)
  }

  /** The parts with `sep` between each two of them. */
  function Join(parts: seq<string>, sep: char): string
    requires |parts| >= 1
  {
    if |parts| == 1 then parts[0] else parts[0] + [sep] + Join(parts[1..], sep)
  }

  /** The pieces of `s` between the occurrences of `sep`. */
  function Split(s: string, sep: char): (pieces: seq<string>)
    ensures |pieces| >= 1
  {
    if s == [] then [""]
    else
      var rest := Split(s[1..], sep);
      if s[0] == sep then [""] + rest else [[s[0]] + rest[0]] + rest[1..]
  }

  lemma {:induction false} SplitPrefix(part: string, tail: string, sep: char)
    requires sep !in part
    ensures Split(part + tail, sep) == [part + Split(tail, sep)[0]] + Split(tail, sep)[1..]
  {
    var pieces := Split(tail, sep);
    if part == [] {
      assert part + tail == tail && part + pieces[0] == pieces[0];
      assert pieces == [pieces[0]] + pieces[1..];
    } else {
      assert (part + tail)[1..] == part[1..] + tail;
      assert part[0] != sep && part[0] == (part + tail)[0];
      SplitPrefix(part[1..], tail, sep);
      var rest := Split(part[1..] + tail, sep);
      assert rest[0] == part[1..] + pieces[0] && rest[1..] == pieces[1..];
      assert [part[0]] + (part[1..] + pieces[0]) == part + pieces[0];
    }
  }

  /** Splitting a join of separator-free parts gives the parts back. */
  lemma {:induction false} SplitJoin(parts: seq<string>, sep: char)
    requires |parts| >= 1
    requires forall i :: 0 <= i < |parts| ==> sep !in parts[i]
    ensures Split(Join(parts, sep), sep) == parts
  {
    if |parts| == 1 {
      SplitPrefix(parts[0], "", sep);
      assert parts[0] + "" == parts[0];
    } else {
      SplitJoin(parts[1..], sep);
      var tail := [sep] + Join(parts[1..], sep);
      assert Join(parts, sep) == parts[0] + tail;
      SplitPrefix(parts[0], tail, sep);
      assert tail[1..] == Join(parts[1..], sep);
      assert tail[0] == sep && tail != [];
      var pieces := Split(tail, sep);
      assert pieces == [""] + Split(tail[1..], sep);
      assert pieces == [""] + parts[1..];
      assert pieces[0] == "" && pieces[1..] == parts[1..];
      assert parts[0] + "" == parts[0];
      assert parts == [parts[0]] + parts[1..];
    }
  }

  /** `build_comment_url` (steem/utils.py:150-151): the three parts joined by slashes. */
  function BuildCommentUrl(parentPermlink: string, author: string, permlink: string): (url: string)
    ensures url == parentPermlink + "/" + author + "/" + permlink
    ensures |url| == |parentPermlink| + |author| + |permlink| + 2
    ensures '/' !in parentPermlink && '/' !in author && '/' !in permlink ==>
      Split(url, '/') == [parentPermlink, author, permlink]
  {
    var parts := [parentPermlink, author, permlink];
    assert parts[1..][1..] == [permlink];
    assert Join(parts[1..][1..], '/') == permlink;
    assert Join(parts[1..], '/') == author + "/" + permlink;
    assert Join(parts, '/') == parentPermlink + "/" + author + "/" + permlink;
    assert '/' !in parentPermlink && '/' !in author && '/' !in permlink ==>
      Split(Join(parts, '/'), '/') == parts
    by {
      if '/' !in parentPermlink && '/' !in author && '/' !in permlink {
        SplitJoin(parts, '/');
      }
    }
    Join(parts, '/')
  }
}
