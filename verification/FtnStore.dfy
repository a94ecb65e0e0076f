/** One conference directory: what send_ftn() writes for an imported message, and the
    comment links it appends to the text that is answered. */
module FtnStore {
  import opened CText
  import opened FtnIndex
  import opened FtnWrap

  // ---------- The bytes of a stored text ----------

  function LineCount(s: string): nat {
    if s == "" then 0 else (if s[0] == '\n' then 1 else 0) + LineCount(s[1..])
  }

  method CountBodyLines(s: string) returns (lines: nat)
    ensures lines == LineCount(s)
  {
    lines := 0;
    var i := 0;
    while i < |s|
      invariant 0 <= i <= |s|
      invariant lines + LineCount(s[i..]) == LineCount(s)
    {
      if s[i] == '\n' {
        lines := lines + 1;
      }
      i := i + 1;
    }
  }

  function Tagged(tag: string, value: string): string {
    if value == "" then "" else tag + value + "\n"
  }

  /** The lines before the FTN-MSGID line. */
  function Preamble(area: string, msg: FidoMsg): string {
    "From: " + msg.from + "\n" + "To: " + msg.to + "\n" + "Subject: " + msg.subject + "\n" +
    "Date: " + msg.date + "\n" + "FTN-Area: " + area + "\n"
  }

  function Postamble(msg: FidoMsg, reason: string): string {
    Tagged("FTN-REPLY: ", msg.reply) + Tagged("FTN-CHRS: ", msg.chrs) + Tagged("FTN-Unsafe: ", reason) +
    "\n" + WrapBody(msg.cleanBody)
  }

  /** build_ftn_mbuf(). */
  function Mbuf(area: string, msg: FidoMsg, reason: string): string {
    Preamble(area, msg) + Tagged("FTN-MSGID: ", msg.msgid) + Postamble(msg, reason)
  }

  /** A body as read_fido_msg() delivers it: whole lines. */
  predicate WholeLines(body: string) {
    body == "" || EndsLine(body)
  }

  lemma MbufEndsLine(area: string, msg: FidoMsg, reason: string)
    requires WholeLines(msg.cleanBody)
    ensures EndsLine(Mbuf(area, msg, reason))
  {
    WrapEndsLine(msg.cleanBody, 0);
    hide WrapFrom;
    var w := WrapBody(msg.cleanBody);
    var head := Tagged("FTN-REPLY: ", msg.reply) + Tagged("FTN-CHRS: ", msg.chrs) + Tagged("FTN-Unsafe: ", reason) +
                "\n";
    EndsLineAfter(head, w);
    EndsLineAfter(Preamble(area, msg) + Tagged("FTN-MSGID: ", msg.msgid), Postamble(msg, reason));
  }

  datatype Post = Post(time: int, com: int, subject: string, mbuf: string)

  /** Numbers printed with "%ld", a colon between neighbours. */
  function ColonJoin(nums: seq<int>): string {
    if nums == [] then "" else if |nums| == 1 then Signed(nums[0]) else Signed(nums[0]) + ":" + ColonJoin(nums[1..])
  }

  lemma {:induction false} NumberCharacters(nums: seq<int>)
    ensures forall i :: 0 <= i < |ColonJoin(nums)| ==>
              IsDigit(ColonJoin(nums)[i]) || ColonJoin(nums)[i] == '-' || ColonJoin(nums)[i] == ':'
  {
    if |nums| > 1 {
      NumberCharacters(nums[1..]);
    }
  }

  function HeaderLine(n: int, post: Post): string {
    ColonJoin([n, 0, post.time, post.com, 0, 0, LineCount(post.mbuf)])
  }

  function TextFile(n: int, post: Post): string {
    HeaderLine(n, post) + "\n" + post.subject + "\n" + post.mbuf
  }

  /** The file as send_ftn() prints it, field by field. */
  function WrittenText(n: int, time: int, com: int, size: int, subject: string, mbuf: string): string {
    ColonJoin([n, 0, time, com, 0, 0, size]) + "\n" + subject + "\n" + mbuf
  }

  lemma WrittenIsText(n: int, post: Post)
    ensures WrittenText(n, post.time, post.com, LineCount(post.mbuf), post.subject, post.mbuf) == TextFile(n, post)
  {
  }

  function LinkLine(child: int): string {
    Signed(child) + ":" + Signed(0) + "\n"
  }

  lemma LinkShape(child: int)
    ensures LinkLine(child) == Signed(child) + ":0\n"
  {
    hide Signed;
    SignedZero();
    assert Signed(child) + ":" + "0" + "\n" == Signed(child) + ":0\n";
  }

  lemma SignedZero()
    ensures Signed(0) == "0"
  {
  }

  /** What storing `post` as text `n` does to the files of the conference. A
      parent without a file is created by the append. */
  function StoreText(files: map<int, string>, n: int, post: Post): map<int, string> {
    var written := files[n := TextFile(n, post)];
    if post.com <= 0 then written
    else written[post.com := (if post.com in written then written[post.com] else "") + LinkLine(n)]
  }

  // ---------- Threads ----------

  /** Text number `p`; numbers start at 1. */
  function PostAt(posts: seq<Post>, p: int): Post
    requires 0 < p <= |posts|
  {
    posts[p - 1]
  }

  /** The texts up to number `k` that answer text `p`, in ascending order. */
  function Children(posts: seq<Post>, p: int, k: nat): seq<int>
    requires k <= |posts|
  {
    if k == 0 then []
    else Children(posts, p, k - 1) + if PostAt(posts, k).com == p then [k] else []
  }

  function LinkLines(children: seq<int>): string {
    if children == [] then "" else LinkLine(children[0]) + LinkLines(children[1..])
  }

  function FileOf(posts: seq<Post>, p: int): string
    requires 0 < p <= |posts|
  {
    TextFile(p, PostAt(posts, p)) + LinkLines(Children(posts, p, |posts|))
  }

  /** The children listed are ascending and are exactly the texts answering `p`. */
  lemma {:induction false} ChildrenExact(posts: seq<Post>, p: int, k: nat)
    requires k <= |posts|
    ensures var c := Children(posts, p, k);
            && (forall i, j :: 0 <= i < j < |c| ==> c[i] < c[j])
            && (forall i :: 0 <= i < |c| ==> 0 < c[i] <= k && PostAt(posts, c[i]).com == p)
            && (forall n :: 0 < n <= k && PostAt(posts, n).com == p ==> n in c)
  {
    if k > 0 {
      ChildrenExact(posts, p, k - 1);
      var before := Children(posts, p, k - 1);
      if PostAt(posts, k).com == p {
        var c := before + [k];
        forall n | 0 < n <= k && PostAt(posts, n).com == p ensures n in c {
          assert n < k ==> n in before;
          assert c[|before|] == k;
        }
      }
    }
  }

  lemma {:induction false} LinkLinesSnoc(children: seq<int>, n: int)
    ensures LinkLines(children + [n]) == LinkLines(children) + LinkLine(n)
  {
    if children == [] {
      assert LinkLines([n]) == LinkLine(n) + LinkLines([]) == LinkLine(n);
    } else {
      assert (children + [n])[1..] == children[1..] + [n];
      LinkLinesSnoc(children[1..], n);
    }
  }

  lemma {:induction false} ChildrenPrefix(posts: seq<Post>, more: seq<Post>, p: int, k: nat)
    requires k <= |posts| && posts <= more
    ensures Children(more, p, k) == Children(posts, p, k)
  {
    if k > 0 {
      ChildrenPrefix(posts, more, p, k - 1);
    }
  }

  /** The files are those of the texts `posts`, each answering an older text or none. */
  ghost predicate Described(files: map<int, string>, posts: seq<Post>) {
    && (forall p :: p in files <==> 0 < p <= |posts|)
    && (forall p :: 0 < p <= |posts| ==> 0 <= PostAt(posts, p).com < p && EndsLine(PostAt(posts, p).mbuf))
    && (forall p :: 0 < p <= |posts| ==> files[p] == FileOf(posts, p))
  }

  /** One conference directory, and the number CONF_FILE holds for it. */
  class Conference {
    var lastText: nat
    var files: map<int, string>
    ghost var posts: seq<Post>

    /** All texts were written by send_ftn(). */
    ghost predicate Threaded()
      reads this
    {
      lastText == |posts| && Described(files, posts)
    }

    constructor ()
      ensures Threaded() && posts == [] && lastText == 0 && files == map[]
    {
      lastText, files, posts := 0, map[], [];
    }

    /** append_comment_link(). */
    method AppendCommentLink(parent: int, child: int)
      modifies this`files
      ensures parent <= 0 || child <= 0 ==> files == old(files)
      ensures parent > 0 && child > 0 ==>
                files ==
                old(files)[parent := (if parent in old(files) then old(files)[parent] else "") + LinkLine(child)]
    {
      if parent > 0 && child > 0 {
        files := files[parent := (if parent in files then files[parent] else "") + LinkLine(child)];
      }
    }

    /** send_ftn(): the next number, the text file, then the link in its parent. */
    method SendFtn(area: string, msg: FidoMsg, com: int, reason: string, time: int) returns (n: nat)
      modifies this
      ensures n == old(lastText) + 1 == lastText
      ensures files == StoreText(old(files), n, Post(time, com, msg.subject, Mbuf(area, msg, reason)))
      ensures posts == old(posts) + [Post(time, com, msg.subject, Mbuf(area, msg, reason))]
      ensures old(Threaded()) && 0 <= com <= old(lastText) && WholeLines(msg.cleanBody) ==> Threaded()
    {
      ghost var files0, posts0 := files, posts;
      ghost var threaded := Threaded() && 0 <= com <= lastText && WholeLines(msg.cleanBody);
      var mbuf := Mbuf(area, msg, reason);
      hide Mbuf, TextFile, WrittenText, LinkLine, FileOf, LineCount;
      var post := Post(time, com, msg.subject, mbuf);
      var size := CountBodyLines(mbuf);
      lastText := lastText + 1;
      n := lastText;
      WrittenIsText(n, post);
      files := files[n := WrittenText(n, time, com, size, msg.subject, mbuf)];
      if com > 0 {
        AppendCommentLink(com, n);
      }
      posts := posts + [post];
      if threaded {
        MbufEndsLine(area, msg, reason);
        StoreKeepsThreads(files0, posts0, post);
      }
    }
  }

  /** Files that describe `posts` describe one post more after it is stored. */
  lemma StoreKeepsThreads(files: map<int, string>, posts: seq<Post>, post: Post)
    requires Described(files, posts) && 0 <= post.com <= |posts| && EndsLine(post.mbuf)
    ensures Described(StoreText(files, |posts| + 1, post), posts + [post])
  {
    hide TextFile, LinkLine;
    var n := |posts| + 1;
    var files', posts' := StoreText(files, n, post), posts + [post];
    forall p | 0 < p <= n
      ensures p in files' && files'[p] == FileOf(posts', p)
      ensures 0 <= PostAt(posts', p).com < p && EndsLine(PostAt(posts', p).mbuf)
    {
      StoredFile(files, posts, post, p);
      assert PostAt(posts', p) == if p < n then PostAt(posts, p) else post;
    }
  }

  /** One post more lengthens its parent's file by its link and no other file. */
  lemma GrownFile(posts: seq<Post>, post: Post, p: int)
    requires 0 < p <= |posts|
    ensures FileOf(posts + [post], p) == FileOf(posts, p) + if post.com == p then LinkLine(|posts| + 1) else ""
  {
    hide TextFile, LinkLine;
    var n, posts' := |posts| + 1, posts + [post];
    ChildrenPrefix(posts, posts', p, |posts|);
    var before := Children(posts, p, |posts|);
    assert Children(posts', p, n) == before + if post.com == p then [n] else [];
    LinkLinesSnoc(before, n);
    assert before + [] == before;
    ConcatAssociative(TextFile(p, PostAt(posts, p)), LinkLines(before), if post.com == p then LinkLine(n) else "");
  }

  lemma {:induction false} NoChildren(posts: seq<Post>, n: int, k: nat)
    requires k <= |posts| && n > k
    requires forall p :: 0 < p <= |posts| ==> PostAt(posts, p).com < p
    ensures Children(posts, n, k) == []
  {
    if k > 0 {
      NoChildren(posts, n, k - 1);
      assert PostAt(posts, k).com < k;
    }
  }

  lemma NewFile(posts: seq<Post>, post: Post)
    requires forall p :: 0 < p <= |posts| ==> PostAt(posts, p).com < p
    requires post.com <= |posts|
    ensures FileOf(posts + [post], |posts| + 1) == TextFile(|posts| + 1, post)
  {
    hide TextFile, LinkLine;
    var n, posts' := |posts| + 1, posts + [post];
    forall p | 0 < p <= n ensures PostAt(posts', p).com < p {
      assert p < n ==> PostAt(posts', p) == PostAt(posts, p);
    }
    NoChildren(posts', n, |posts|);
    assert PostAt(posts', n) == post;
    assert Children(posts', n, n) == [];
  }

  lemma StoredFile(files: map<int, string>, posts: seq<Post>, post: Post, p: int)
    requires Described(files, posts) && 0 <= post.com <= |posts| && 0 < p <= |posts| + 1
    ensures var files', posts' := StoreText(files, |posts| + 1, post), posts + [post];
            p in files' && files'[p] == FileOf(posts', p)
  {
    hide TextFile, LinkLine, FileOf;
    if p <= |posts| {
      GrownFile(posts, post, p);
    } else {
      NewFile(posts, post);
    }
  }
}
