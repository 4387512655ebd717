/**
 * The generated PHP include stubs. A post stub names its post and
 * includes the category stub `chain.php`; the category stub names the
 * page and includes the shared post template. Their text is a contract
 * with the site's templates, so it is reproduced byte for byte.
 */
module Stubs {
  import opened Wrappers

  const POST_STUB_HEAD: string := "<?php $file_name = \""
  const POST_STUB_TAIL: string := "\"; include 'chain.php'; ?>"

  const CHAIN_STUB_HEAD: string := "<?php\n$page = '"
  const CHAIN_STUB_TAIL: string :=
    "';\n$attributes = 'post-attrs.php';\ninclude '../resources/post-template.php';\n?>"

  /** File name of the category stub inside a category directory. */
  const CHAIN_FILE: string := "chain.php"

  /** `create_post_php`'s content: `<?php $file_name = "F"; include 'chain.php'; ?>`. */
  function PostStub(fileName: string): (r: string)
    ensures |r| == |POST_STUB_HEAD| + |fileName| + |POST_STUB_TAIL|
    ensures r[|POST_STUB_HEAD|..|POST_STUB_HEAD| + |fileName|] == fileName
  {
    POST_STUB_HEAD + fileName + POST_STUB_TAIL
  }

  /** `create_chain_php`'s content, naming the category as the page. */
  function ChainStub(category: string): (r: string)
    ensures |r| == |CHAIN_STUB_HEAD| + |category| + |CHAIN_STUB_TAIL|
    ensures r[|CHAIN_STUB_HEAD|..|CHAIN_STUB_HEAD| + |category|] == category
  {
    CHAIN_STUB_HEAD + category + CHAIN_STUB_TAIL
  }

  /** The name between a fixed head and tail, if `content` has that shape. */
  function Between(content: string, head: string, tail: string): (r: Option<string>)
    ensures r.Some? ==> content == head + r.value + tail
  {
    if |content| >= |head| + |tail| && content[..|head|] == head && content[|content| - |tail|..] == tail
    then
      var middle := content[|head|..|content| - |tail|];
      assert content == content[..|head|] + middle + content[|content| - |tail|..];
      Some(middle)
    else None
  }

  /** The text between the fixed head and tail of a post stub: the post's file name. */
  function PostStubFileName(content: string): Option<string>
  {
    Between(content, POST_STUB_HEAD, POST_STUB_TAIL)
  }

  /** The text between the fixed head and tail of a category stub: the page name. */
  function ChainStubPage(content: string): Option<string>
  {
    Between(content, CHAIN_STUB_HEAD, CHAIN_STUB_TAIL)
  }

  lemma BetweenRoundTrip(head: string, name: string, tail: string)
    ensures Between(head + name + tail, head, tail) == Some(name)
  {
    var c := head + name + tail;
    assert c[..|head|] == head;
    assert c[|c| - |tail|..] == tail;
    assert c[|head|..|c| - |tail|] == name;
  }

  /** The post stub names exactly the post it was written for. */
  lemma PostStubRoundTrip(fileName: string)
    ensures PostStubFileName(PostStub(fileName)) == Some(fileName)
  {
    BetweenRoundTrip(POST_STUB_HEAD, fileName, POST_STUB_TAIL);
  }

  /** The category stub names exactly the category it was written for. */
  lemma ChainStubRoundTrip(category: string)
    ensures ChainStubPage(ChainStub(category)) == Some(category)
  {
    BetweenRoundTrip(CHAIN_STUB_HEAD, category, CHAIN_STUB_TAIL);
  }

  /** Distinct posts get distinct stubs, and so do distinct categories. */
  lemma StubsInjective(a: string, b: string)
    ensures PostStub(a) == PostStub(b) ==> a == b
    ensures ChainStub(a) == ChainStub(b) ==> a == b
  {
    PostStubRoundTrip(a);
    PostStubRoundTrip(b);
    ChainStubRoundTrip(a);
    ChainStubRoundTrip(b);
  }
}
