/**
 * The Reddit class: the arguments it hands to the API client, the filter that
 * keeps image posts, and the random pick of one image URL.
 */
module Feed {
  import opened Results

  /** A post's `post_hint` attribute: PRAW sets it on some posts only. */
  datatype Hint = Absent | Present(value: string)

  /**
   * A listed post: its hint, and the URL stored under
   * `preview['images'][0]['source']['url']`.
   */
  datatype Post = Post(hint: Hint, sourceUrl: string)

  predicate IsImagePost(p: Post) {
    p.hint == Present("image")
  }

  /** `[post for post in posts if 'post_hint' in dir(post) if post.post_hint == 'image']` */
  function ImagePosts(posts: seq<Post>): (r: seq<Post>)
    ensures |r| <= |posts|
  {
    if posts == [] then []
    else if IsImagePost(posts[0]) then [posts[0]] + ImagePosts(posts[1..])
    else ImagePosts(posts[1..])
  }

  /** A post is kept exactly when it is in the listing and its hint is `'image'`. */
  lemma {:induction false} ImagePostsMembership(posts: seq<Post>, p: Post)
    ensures p in ImagePosts(posts) <==> p in posts && IsImagePost(p)
  {
    if posts != [] {
      ImagePostsMembership(posts[1..], p);
      assert posts == [posts[0]] + posts[1..];
    }
  }

  /** `[post.preview['images'][0]['source']['url'] for post in posts]` */
  function SourceUrls(posts: seq<Post>): (r: seq<string>)
    ensures |r| == |posts|
  {
    seq(|posts|, i requires 0 <= i < |posts| => posts[i].sourceUrl)
  }

  /** The `image_urls` list that scrape_sub_pictures stores. */
  function ImageUrls(posts: seq<Post>): (r: seq<string>)
    ensures |r| == |ImagePosts(posts)|
    ensures forall i :: 0 <= i < |r| ==> r[i] == ImagePosts(posts)[i].sourceUrl
  {
    SourceUrls(ImagePosts(posts))
  }

  function CountImagePosts(posts: seq<Post>): nat {
    if posts == [] then 0
    else (if IsImagePost(posts[0]) then 1 else 0) + CountImagePosts(posts[1..])
  }

  /**
   * `image_urls` has one entry per image post, in feed order: the feed splits
   * into the first post and the rest, and the list splits the same way.
   */
  lemma {:induction false} ImageUrlsInFeedOrder(posts: seq<Post>)
    ensures |ImageUrls(posts)| == CountImagePosts(posts)
    ensures posts != [] ==>
      ImageUrls(posts) == (if IsImagePost(posts[0]) then [posts[0].sourceUrl] else []) + ImageUrls(posts[1..])
  {
    if posts != [] {
      ImageUrlsInFeedOrder(posts[1..]);
    }
  }

  /** Image URLs of two feeds listed one after the other. */
  lemma ImageUrlsAppend(a: seq<Post>, b: seq<Post>)
    ensures ImageUrls(a + b) == ImageUrls(a) + ImageUrls(b)
  {
    ImagePostsAppend(a, b);
    var pa, pb := ImagePosts(a), ImagePosts(b);
    assert SourceUrls(pa + pb) == SourceUrls(pa) + SourceUrls(pb);
  }

  lemma {:induction false} ImagePostsAppend(a: seq<Post>, b: seq<Post>)
    ensures ImagePosts(a + b) == ImagePosts(a) + ImagePosts(b)
  {
    if a == [] {
      assert a + b == b;
    } else {
      var ab := a + b;
      assert ab[0] == a[0];
      assert ab[1..] == a[1..] + b;
      ImagePostsAppend(a[1..], b);
      if IsImagePost(a[0]) {
        assert ImagePosts(ab) == [a[0]] + ImagePosts(a[1..] + b);
        assert ImagePosts(a) == [a[0]] + ImagePosts(a[1..]);
      } else {
        assert ImagePosts(ab) == ImagePosts(a[1..] + b);
        assert ImagePosts(a) == ImagePosts(a[1..]);
      }
    }
  }

  /** A URL is listed exactly when some image post of the feed carries it. */
  lemma ImageUrlsMembership(posts: seq<Post>, u: string)
    ensures u in ImageUrls(posts) <==> exists p :: p in posts && IsImagePost(p) && p.sourceUrl == u
  {
    var ps := ImagePosts(posts);
    if u in ImageUrls(posts) {
      var i :| 0 <= i < |ps| && SourceUrls(ps)[i] == u;
      assert ps[i] in ps;
      ImagePostsMembership(posts, ps[i]);
    }
    if exists p :: p in posts && IsImagePost(p) && p.sourceUrl == u {
      var p :| p in posts && IsImagePost(p) && p.sourceUrl == u;
      ImagePostsMembership(posts, p);
      var i :| 0 <= i < |ps| && ps[i] == p;
      assert SourceUrls(ps)[i] == u;
    }
  }

  /** The keyword arguments given to `praw.Reddit`. */
  datatype ClientConfig = ClientConfig(
    clientId: string, clientSecret: string, password: string, username: string, userAgent: string)

  /** Reddit._initialize as written: `client_id` is given the username. */
  function InitializeAsWritten(username: string, password: string, clientId: string,
                               clientSecret: string, userAgent: string): (c: ClientConfig)
    ensures c.clientId == username
    ensures c.clientSecret == clientSecret && c.password == password && c.username == username
    ensures c.userAgent == userAgent
  {
    ClientConfig(username, clientSecret, password, username, userAgent)
  }

  /** Reddit._initialize as evidently intended: every argument comes from its own field. */
  function Initialize(username: string, password: string, clientId: string,
                      clientSecret: string, userAgent: string): (c: ClientConfig)
    ensures c.clientId == clientId
    ensures c.clientSecret == clientSecret && c.password == password && c.username == username
    ensures c.userAgent == userAgent
  {
    ClientConfig(clientId, clientSecret, password, username, userAgent)
  }

  /** The two agree exactly when the client id happens to equal the username. */
  lemma InitializeAsWrittenDropsClientId(username: string, password: string, clientId: string,
                                         clientSecret: string, userAgent: string)
    ensures InitializeAsWritten(username, password, clientId, clientSecret, userAgent)
            == Initialize(username, password, clientId, clientSecret, userAgent)
            <==> clientId == username
    ensures InitializeAsWritten("user", "pw", "app-id", "secret", "required").clientId != "app-id"
  {
  }

  const DefaultUserAgent: string := "required"

  class Reddit {
    const username: string
    const password: string
    const clientId: string
    const clientSecret: string
    const userAgent: string
    /** Stands for `self.reddit`, the client built from these arguments. */
    const client: ClientConfig
    /** `self.image_urls`, which exists only once scrape_sub_pictures has run. */
    var imageUrls: Option<seq<string>>

    constructor (username: string, password: string, clientId: string, clientSecret: string,
                 userAgent: string := DefaultUserAgent)
      ensures this.username == username && this.password == password && this.clientId == clientId
      ensures this.clientSecret == clientSecret && this.userAgent == userAgent
      ensures client == InitializeAsWritten(username, password, clientId, clientSecret, userAgent)
      ensures imageUrls == None
    {
      this.username := username;
      this.password := password;
      this.clientId := clientId;
      this.clientSecret := clientSecret;
      this.userAgent := userAgent;
      client := InitializeAsWritten(username, password, clientId, clientSecret, userAgent);
      imageUrls := None;
    }

    /** scrape_sub_pictures, given the posts the listing returned. */
    method ScrapeSubPictures(listing: seq<Post>)
      modifies this`imageUrls
      ensures imageUrls == Some(ImageUrls(listing))
    {
      var posts := ImagePosts(listing);
      imageUrls := Some(SourceUrls(posts));
    }

    /** get_random_url: `np.random.choice(self.image_urls)`, the random draw left open. */
    method GetRandomUrl() returns (r: Result<string>)
      ensures imageUrls == None ==> r == Err(MissingAttribute("image_urls"))
      ensures imageUrls == Some([]) ==> r == Err(EmptyChoice)
      ensures r.Ok? ==> imageUrls.Some? && r.value in imageUrls.value
      ensures imageUrls.Some? && imageUrls.value != [] ==> r.Ok?
    {
      match imageUrls
      case None =>
        r := Err(MissingAttribute("image_urls"));
      case Some(urls) =>
        if urls == [] {
          r := Err(EmptyChoice);
        } else {
          assert urls[0] in urls;
          var u :| u in urls;
          r := Ok(u);
        }
    }
  }
}
