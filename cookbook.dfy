/**
 * The application rules of cookbook.py that sit around the image and storage
 * layers: the photo upload (`UploadHandler.post` and the two-leg join in
 * `on_upload`), the recipe slug of `Backend.create_recipe`, the sentence
 * `BaseHandler.friend_list` builds, the selection `HomeHandler.get` renders,
 * the same-host check of `LoginHandler.get`, the friendship rows of
 * `Backend.update_friends`, and `cdn_url`.
 *
 * The database, the templates and tornado's HTML escaping are reached through
 * parameters: the rows a query returns, and `escape` for `xhtml_escape`.
 */
module Cookbook {
  import opened Wrappers
  import opened Text
  import Images
  import Aws

  /** The columns of a `cookbook_recipes` row the handlers look at. */
  datatype Recipe = Recipe(id: int, slug: string, authorId: int, hasPhoto: bool)

  /** A `cookbook_users` row: id, display name and profile link. */
  datatype User = User(id: int, name: string, link: string)

  /** `reverse_url("recipe", slug)` for the route `/recipe/([^/]+)`. */
  function RecipePath(slug: string): string {
    "/recipe/" + slug
  }

  // =======================================================================
  // UploadHandler.post: the size gate

  /** The `full` and `thumb` variants `post` asks the transcoder for. */
  const FullRequest := Images.ResizeRequest(800, 800, 85, false, false)
  const ThumbRequest := Images.ResizeRequest(300, 800, 85, false, false)

  /** The smallest width and height a recipe photo may have. */
  const MinPhotoSide := 300

  const TooSmallMessage := "Recipe images must be at least 300 pixels wide and 300 pixels tall."

  /** What `post` does with a request. */
  datatype PostResult =
    | NotFound                                      // HTTP 404: no such recipe
    | Forbidden                                     // HTTP 403: someone else's photographed recipe
    | BadImage(error: Images.ImageError)            // `resize_image` raised
    | TooSmall(location: string, message: string)   // error message and redirect, nothing uploaded
    | Uploading(full: Images.Transcoded, thumb: Images.Transcoded)  // both legs started

  predicate TooSmallPhoto(full: Images.Transcoded) {
    full.width < MinPhotoSide || full.height < MinPhotoSide
  }

  /**
   * `UploadHandler.post`: the recipe must exist, and a recipe that already has
   * a photo may only be changed by its author; the picture is transcoded twice
   * and refused when the full variant is under 300 pixels on either side.
   */
  method Post(decode: seq<Byte> -> Option<Images.SourceImage>, data: seq<Byte>, recipe: Option<Recipe>, userId: int)
    returns (r: PostResult)
    ensures recipe.None? ==> r == NotFound
    ensures recipe.Some? && recipe.value.hasPhoto && recipe.value.authorId != userId ==> r == Forbidden
    ensures recipe.Some? && !(recipe.value.hasPhoto && recipe.value.authorId != userId) ==>
      if decode(data).None? then r == BadImage(Images.UnsupportedFormat(Images.Excerpt(data)))
      else
        var full := Images.TranscodeOf(data, decode(data).value, FullRequest);
        var thumb := Images.TranscodeOf(data, decode(data).value, ThumbRequest);
        r == if TooSmallPhoto(full) then TooSmall(RecipePath(recipe.value.slug), TooSmallMessage)
             else Uploading(full, thumb)
  {
    if recipe.None? {
      return NotFound;
    }
    if recipe.value.hasPhoto && recipe.value.authorId != userId {
      return Forbidden;
    }
    var full := Images.ResizeImageData(decode, data, FullRequest);
    if full.Failure? {
      return BadImage(full.error);
    }
    var thumb := Images.ResizeImageData(decode, data, ThumbRequest);
    // The same data decodes the same way for the second variant.
    assert thumb.Success?;
    if TooSmallPhoto(full.value) {
      return TooSmall(RecipePath(recipe.value.slug), TooSmallMessage);
    }
    r := Uploading(full.value, thumb.value);
  }

  /** Transcoding never enlarges an unforced request, so a source under 300 pixels on a side is refused. */
  lemma SmallSourceRefused(data: seq<Byte>, img: Images.SourceImage)
    requires img.width < MinPhotoSide || img.height < MinPhotoSide
    ensures TooSmallPhoto(Images.TranscodeOf(data, img, FullRequest))
  {
    Images.ResizeDecision(img, FullRequest);
  }

  /** A source between 300 and 800 pixels on both sides is kept at its size and accepted. */
  lemma FittingSourceAccepted(data: seq<Byte>, img: Images.SourceImage)
    requires MinPhotoSide <= img.width <= 800 && MinPhotoSide <= img.height <= 800
    ensures var full := Images.TranscodeOf(data, img, FullRequest);
      !TooSmallPhoto(full) && full.width == img.width && full.height == img.height
  {
    Images.AtLeastOne(800.0, img.width as real);
    Images.AtLeastOne(800.0, img.height as real);
    Images.ResizeDecision(img, FullRequest);
  }

  /** Whatever the source, the full variant fits 800x800 and the thumbnail 300x800. */
  lemma VariantsFit(data: seq<Byte>, img: Images.SourceImage)
    ensures var full := Images.TranscodeOf(data, img, FullRequest);
      full.width <= 800 && full.height <= 800
    ensures var thumb := Images.TranscodeOf(data, img, ThumbRequest);
      thumb.width <= 300 && thumb.height <= 800
  {
    Images.FitsWithinBox(img, FullRequest);
    Images.FitsWithinBox(img, ThumbRequest);
  }

  // =======================================================================
  // UploadHandler.on_upload: the two-leg join

  datatype Leg = Thumb | Full

  function Other(leg: Leg): Leg {
    if leg == Thumb then Full else Thumb
  }

  /** What a completion callback does. */
  datatype Outcome =
    | ServerError              // HTTP 500: the leg reported no hash
    | Waiting                  // the other leg is still pending
    | Finished(location: string)  // photos saved, browser redirected to the recipe

  /** The `cookbook_photos` row `save_photos` writes. */
  datatype PhotoRow = PhotoRow(recipeId: int, fullHash: string, fullWidth: int, fullHeight: int,
                               thumbHash: string, thumbWidth: int, thumbHeight: int)

  /**
   * The `resized` dict shared by the two completion callbacks of one upload:
   * each variant's `uploaded` flag and `hash`, plus the rows saved so far.
   */
  class UploadJob {
    const recipe: Recipe
    const full: Images.Transcoded
    const thumb: Images.Transcoded
    var thumbUploaded: bool
    var fullUploaded: bool
    var thumbHash: Option<string>
    var fullHash: Option<string>
    var saved: seq<PhotoRow>

    /** A variant is marked uploaded exactly when it holds a non-empty hash. */
    ghost predicate Valid()
      reads this
    {
      && (thumbUploaded <==> Truthy(thumbHash))
      && (fullUploaded <==> Truthy(fullHash))
    }

    /** The row `save_photos` writes once both hashes are known. */
    function Row(): PhotoRow
      reads this
      requires Valid() && thumbUploaded && fullUploaded
    {
      PhotoRow(recipe.id, fullHash.value, full.width, full.height, thumbHash.value, thumb.width, thumb.height)
    }

    /** `thumb["uploaded"] = False; full["uploaded"] = False` before the two puts. */
    constructor (recipe: Recipe, full: Images.Transcoded, thumb: Images.Transcoded)
      ensures Valid()
      ensures this.recipe == recipe && this.full == full && this.thumb == thumb
      ensures !thumbUploaded && !fullUploaded && saved == []
    {
      this.recipe, this.full, this.thumb := recipe, full, thumb;
      thumbUploaded, fullUploaded := false, false;
      thumbHash, fullHash := None, None;
      saved := [];
    }

    /**
     * `on_upload(image_size, recipe, images, hash)`: a missing hash is a
     * server error that leaves everything as it was; otherwise the leg's own
     * variant is marked, and the photos are saved when both variants are in.
     */
    method OnUpload(leg: Leg, hash: Option<string>) returns (out: Outcome)
      requires Valid()
      modifies this
      ensures Valid()
      ensures !Truthy(hash) ==> out == ServerError && unchanged(this)
      ensures Truthy(hash) ==>
        && (if leg == Thumb then thumbUploaded && thumbHash == hash && fullUploaded == old(fullUploaded) && fullHash == old(fullHash)
            else fullUploaded && fullHash == hash && thumbUploaded == old(thumbUploaded) && thumbHash == old(thumbHash))
        && (if thumbUploaded && fullUploaded
            then saved == old(saved) + [Row()] && out == Finished(RecipePath(recipe.slug))
            else saved == old(saved) && out == Waiting)
    {
      if !Truthy(hash) {
        return ServerError;
      }
      if leg == Thumb {
        thumbUploaded, thumbHash := true, hash;
      } else {
        fullUploaded, fullHash := true, hash;
      }
      if thumbUploaded && fullUploaded {
        saved := saved + [Row()];
        out := Finished(RecipePath(recipe.slug));
      } else {
        out := Waiting;
      }
    }
  }

  /**
   * Both legs of one upload complete, in either order: the first completion
   * waits, the second saves the photos exactly once with each variant's own
   * hash and redirects to the recipe. A leg without a hash fails, and then
   * nothing is ever saved.
   */
  method UploadBothLegs(recipe: Recipe, full: Images.Transcoded, thumb: Images.Transcoded,
                        first: Leg, firstHash: Option<string>, secondHash: Option<string>)
    returns (out1: Outcome, out2: Outcome, rows: seq<PhotoRow>)
    ensures Truthy(firstHash) && Truthy(secondHash) ==>
      && out1 == Waiting
      && out2 == Finished(RecipePath(recipe.slug))
      && var fullHash := if first == Full then firstHash.value else secondHash.value;
         var thumbHash := if first == Thumb then firstHash.value else secondHash.value;
         rows == [PhotoRow(recipe.id, fullHash, full.width, full.height, thumbHash, thumb.width, thumb.height)]
    ensures !Truthy(firstHash) ==> out1 == ServerError && rows == []
    ensures !Truthy(secondHash) ==> out2 == ServerError && rows == []
  {
    var job := new UploadJob(recipe, full, thumb);
    out1 := job.OnUpload(first, firstHash);
    out2 := job.OnUpload(Other(first), secondHash);
    rows := job.saved;
  }

  // =======================================================================
  // Backend.create_recipe: the slug

  predicate IsSlugChar(c: char) {
    IsAsciiLower(c) || IsAsciiUpper(c) || IsAsciiDigit(c) || c == '-'
  }

  /** The characters a slug base can hold once lower-cased and filtered. */
  predicate IsLowerSlugChar(c: char) {
    IsAsciiLower(c) || IsAsciiDigit(c) || c == '-'
  }

  /** `"".join(c for c in s if c in valid_letters)` */
  function KeepSlugChars(s: string): (r: string)
    ensures |r| <= |s|
  {
    if s == [] then [] else (if IsSlugChar(s[0]) then [s[0]] else []) + KeepSlugChars(s[1..])
  }

  /** The filter keeps exactly the ASCII letters, digits and dashes. */
  lemma {:induction false} KeepSlugCharsMembers(s: string)
    ensures forall c :: c in KeepSlugChars(s) <==> c in s && IsSlugChar(c)
  {
    if s != [] {
      KeepSlugCharsMembers(s[1..]);
      assert s == [s[0]] + s[1..];
    }
  }

  /** The filter works character by character: filtering a concatenation concatenates the filtered parts. */
  lemma {:induction false} KeepSlugCharsAppend(a: string, b: string)
    ensures KeepSlugChars(a + b) == KeepSlugChars(a) + KeepSlugChars(b)
  {
    if a != [] {
      KeepSlugCharsAppend(a[1..], b);
      assert (a + b)[1..] == a[1..] + b;
    } else {
      assert a + b == b;
    }
  }

  /** A single character is kept exactly when it is an ASCII letter, a digit or a dash. */
  lemma KeepSlugCharsOne(c: char)
    ensures KeepSlugChars([c]) == if IsSlugChar(c) then [c] else []
  {
    assert [c][1..] == [];
  }

  const MaxSlugBase := 90

  /** Spaces to dashes, lower case, only ASCII letters, digits and dashes, at most 90 characters. */
  function SlugBase(title: string): string {
    var kept := KeepSlugChars(Lower(ReplaceChar(title, ' ', '-')));
    if |kept| <= MaxSlugBase then kept else kept[..MaxSlugBase]
  }

  /** The slug of attempt `tries`: the base, then the base with `-1`, `-2`, ... */
  function Slug(base: string, tries: nat): string {
    if tries > 0 then base + "-" + NatToString(tries) else base
  }

  /** A slug base is short and made of lower-case letters, digits and dashes. */
  lemma SlugBaseShape(title: string)
    ensures |SlugBase(title)| <= MaxSlugBase
    ensures forall c :: c in SlugBase(title) ==> IsLowerSlugChar(c)
  {
    var kept := KeepSlugChars(Lower(ReplaceChar(title, ' ', '-')));
    KeepSlugCharsMembers(Lower(ReplaceChar(title, ' ', '-')));
    forall c | c in kept ensures IsLowerSlugChar(c) {
      var l := Lower(ReplaceChar(title, ' ', '-'));
      var i :| 0 <= i < |l| && l[i] == c;
      assert !IsAsciiUpper(LowerChar(ReplaceChar(title, ' ', '-')[i]));
    }
    if |kept| > MaxSlugBase {
      forall c | c in kept[..MaxSlugBase] ensures c in kept {
        var i :| 0 <= i < MaxSlugBase && kept[..MaxSlugBase][i] == c;
        assert kept[i] == c;
      }
    }
  }

  lemma {:induction false} LowerKeeps(s: string)
    requires forall c :: c in s ==> IsLowerSlugChar(c)
    ensures Lower(s) == s
  {
    forall i | 0 <= i < |s| ensures Lower(s)[i] == s[i] {
      assert s[i] in s;
    }
  }

  lemma {:induction false} KeepSlugCharsKeeps(s: string)
    requires forall c :: c in s ==> IsLowerSlugChar(c)
    ensures KeepSlugChars(s) == s
  {
    if s != [] {
      assert s[0] in s;
      assert forall c :: c in s[1..] ==> c in s;
      KeepSlugCharsKeeps(s[1..]);
      assert s == [s[0]] + s[1..];
    }
  }

  /** A title that already is a slug base is left as it is; in particular the base of a base is itself. */
  lemma SlugBaseKeeps(title: string)
    requires |title| <= MaxSlugBase
    requires forall c :: c in title ==> IsLowerSlugChar(c)
    ensures SlugBase(title) == title
  {
    assert ReplaceChar(title, ' ', '-') == title by {
      forall i | 0 <= i < |title| ensures ReplaceChar(title, ' ', '-')[i] == title[i] {
        assert title[i] in title;
      }
    }
    LowerKeeps(title);
    KeepSlugCharsKeeps(title);
  }

  lemma SlugBaseIdempotent(title: string)
    ensures SlugBase(SlugBase(title)) == SlugBase(title)
  {
    SlugBaseShape(title);
    SlugBaseKeeps(SlugBase(title));
  }

  /** Different attempts never retry the same slug. */
  lemma SlugsDistinct(base: string, i: nat, j: nat)
    requires i != j
    ensures Slug(base, i) != Slug(base, j)
  {
    if i > 0 && j > 0 && Slug(base, i) == Slug(base, j) {
      var p := base + "-";
      assert Slug(base, i)[|p|..] == NatToString(i);
      assert Slug(base, j)[|p|..] == NatToString(j);
      NatToStringInjective(i, j);
    }
  }

  /** The slugs of the first `n` attempts. */
  ghost function SlugsBelow(base: string, n: nat): set<string> {
    if n == 0 then {} else SlugsBelow(base, n - 1) + {Slug(base, n - 1)}
  }

  /** No later attempt's slug is among the first `n`. */
  lemma {:induction false} LaterNotBelow(base: string, n: nat, m: nat)
    requires m >= n
    ensures Slug(base, m) !in SlugsBelow(base, n)
  {
    if n > 0 {
      SlugsDistinct(base, m, n - 1);
      LaterNotBelow(base, n - 1, m);
    }
  }

  lemma {:induction false} SlugsBelowSize(base: string, n: nat)
    ensures |SlugsBelow(base, n)| == n
  {
    if n > 0 {
      SlugsBelowSize(base, n - 1);
      LaterNotBelow(base, n - 1, n - 1);
    }
  }

  /**
   * The `while True` loop of `create_recipe` against the unique slug column:
   * the insert fails while the slug is taken, and each failure moves to the
   * next attempt. `taken` holds the slugs already in the table. The loop
   * stops after at most `|taken|` failures, on the first free slug.
   */
  method CreateSlug(title: string, taken: set<string>) returns (slug: string, tries: nat)
    ensures slug == Slug(SlugBase(title), tries) && slug !in taken
    ensures forall j :: 0 <= j < tries ==> Slug(SlugBase(title), j) in taken
    ensures tries <= |taken|
  {
    var base := SlugBase(title);
    tries := 0;
    SlugsBelowSize(base, 0);
    while Slug(base, tries) in taken
      invariant SlugsBelow(base, tries) <= taken
      invariant forall j :: 0 <= j < tries ==> Slug(base, j) in taken
      invariant tries <= |taken|
      decreases |taken| - tries
    {
      tries := tries + 1;
      SlugsBelowSize(base, tries);
      SubsetSize(SlugsBelow(base, tries), taken);
    }
    slug := Slug(base, tries);
  }

  lemma SubsetSize<T>(a: set<T>, b: set<T>)
    requires a <= b
    ensures |a| <= |b|
  {
    assert b == a + (b - a);
  }

  // =======================================================================
  // BaseHandler.friend_list

  /** `user_link`: "You"/"you" for the signed-in user when `you`, the user's name otherwise. */
  function UserLink(escape: string -> string, current: Option<int>, user: User, you: bool, capitalize: bool): string {
    var name := if you && current == Some(user.id) then (if capitalize then "You" else "you") else user.name;
    "<a href=\"" + user.link + "\" class=\"name\">" + escape(name) + "</a>"
  }

  /** How friend `i` of the list is written: capitalised only at the head of the sentence. */
  function Mention(escape: string -> string, current: Option<int>, friends: seq<User>, i: nat): string
    requires i < |friends|
  {
    UserLink(escape, current, friends[i], true, i == 0)
  }

  function Mentions(escape: string -> string, current: Option<int>, friends: seq<User>): (r: seq<string>)
    ensures |r| == |friends|
    ensures forall i :: 0 <= i < |friends| ==> r[i] == Mention(escape, current, friends, i)
  {
    seq(|friends|, i requires 0 <= i < |friends| => Mention(escape, current, friends, i))
  }

  /**
   * `friend_list(friends, size)`: one friend alone; up to `size + 1` friends
   * all named, the last after " and "; more than that, the first `size` named
   * and the rest counted.
   */
  function FriendList(escape: string -> string, current: Option<int>, friends: seq<User>, size: nat): string
    requires |friends| >= 1
  {
    var n := |friends|;
    if n == 1 then UserLink(escape, current, friends[0], true, true)
    else if n > size + 1 then
      Join(Mentions(escape, current, friends[..size]), ", ") + (" and " + NatToString(n - size) + " other friends")
    else
      Join(Mentions(escape, current, friends[..n - 1]), ", ") + (" and " + UserLink(escape, current, friends[n - 1], true, false))
  }

  /** How many friends `friend_list` names; the others are counted. */
  function Named(n: nat, size: nat): nat {
    if n > size + 1 then size else n
  }

  /** A prefix's mentions are the list's mentions. */
  lemma MentionsPrefix(escape: string -> string, current: Option<int>, friends: seq<User>, m: nat, i: nat)
    requires i < m <= |friends|
    ensures Mentions(escape, current, friends[..m])[i] == Mention(escape, current, friends, i)
  {
  }

  /** A part of a joined list is still there once something follows the list. */
  lemma JoinedPartBeforeTail(parts: seq<string>, sep: string, tail: string, i: nat) returns (p: string, q: string)
    requires i < |parts|
    ensures Join(parts, sep) + tail == p + parts[i] + q
  {
    JoinHasPart(parts, sep, i);
    var p0: string, q0: string :| Join(parts, sep) == p0 + parts[i] + q0;
    p, q := p0, q0 + tail;
  }

  /** Friend `i` of those named before " and N other friends". */
  lemma NamedBeforeCount(escape: string -> string, current: Option<int>, friends: seq<User>, size: nat, i: nat)
    returns (p: string, q: string)
    requires |friends| > size + 1 && i < size
    ensures FriendList(escape, current, friends, size) == p + Mention(escape, current, friends, i) + q
  {
    MentionsPrefix(escape, current, friends, size, i);
    var n := |friends|;
    p, q := JoinedPartBeforeTail(Mentions(escape, current, friends[..size]), ", ", " and " + NatToString(n - size) + " other friends", i);
  }

  /** Friend `i` of those named before the last one. */
  lemma NamedBeforeLast(escape: string -> string, current: Option<int>, friends: seq<User>, size: nat, i: nat)
    returns (p: string, q: string)
    requires 1 < |friends| <= size + 1 && i < |friends| - 1
    ensures FriendList(escape, current, friends, size) == p + Mention(escape, current, friends, i) + q
  {
    var n := |friends|;
    MentionsPrefix(escape, current, friends, n - 1, i);
    p, q := JoinedPartBeforeTail(Mentions(escape, current, friends[..n - 1]), ", ", " and " + UserLink(escape, current, friends[n - 1], true, false), i);
  }

  /** The last friend, named after " and ". */
  lemma NamedLast(escape: string -> string, current: Option<int>, friends: seq<User>, size: nat)
    returns (p: string, q: string)
    requires 1 < |friends| <= size + 1
    ensures FriendList(escape, current, friends, size) == p + Mention(escape, current, friends, |friends| - 1) + q
  {
    var n := |friends|;
    var front := Join(Mentions(escape, current, friends[..n - 1]), ", ");
    var x := UserLink(escape, current, friends[n - 1], true, false);
    p, q := front + " and ", [];
    assert front + (" and " + x) == (front + " and ") + x + [];
  }

  /** Every named friend appears in the sentence, capitalised exactly when first. */
  lemma FriendListNames(escape: string -> string, current: Option<int>, friends: seq<User>, size: nat, i: nat)
    requires |friends| >= 1 && i < Named(|friends|, size)
    ensures exists p: string, q: string :: FriendList(escape, current, friends, size) == p + Mention(escape, current, friends, i) + q
  {
    var n := |friends|;
    var p: string, q: string;
    if n == 1 {
      p, q := [], [];
      assert FriendList(escape, current, friends, size) == p + Mention(escape, current, friends, i) + q;
    } else if n > size + 1 {
      p, q := NamedBeforeCount(escape, current, friends, size, i);
    } else if i == n - 1 {
      p, q := NamedLast(escape, current, friends, size);
    } else {
      p, q := NamedBeforeLast(escape, current, friends, size, i);
    }
  }

  /** Neighbouring mentions of a prefix stay neighbours, with ", " between them, whatever follows the list. */
  lemma AdjacentInJoin(escape: string -> string, current: Option<int>, friends: seq<User>, m: nat, tail: string, i: nat, j: nat)
    requires j == i + 1 && j < m <= |friends|
    ensures exists p: string, q: string ::
      Join(Mentions(escape, current, friends[..m]), ", ") + tail == p + Mention(escape, current, friends, i) + ", " + Mention(escape, current, friends, j) + q
  {
    var parts := Mentions(escape, current, friends[..m]);
    MentionsPrefix(escape, current, friends, m, i);
    MentionsPrefix(escape, current, friends, m, j);
    JoinAdjacent(parts, ", ", i, j);
    var p: string, q: string :| Join(parts, ", ") == p + parts[i] + ", " + parts[j] + q;
    assert Join(parts, ", ") + tail == p + parts[i] + ", " + parts[j] + (q + tail);
  }

  /** In a list named in full, the last friend follows the one before it after " and ". */
  lemma AdjacentAtAnd(escape: string -> string, current: Option<int>, friends: seq<User>, size: nat, i: nat, j: nat)
    requires 1 < |friends| <= size + 1 && j == i + 1 && j + 1 == |friends|
    ensures exists p: string, q: string ::
      FriendList(escape, current, friends, size) == p + Mention(escape, current, friends, i) + " and " + Mention(escape, current, friends, j) + q
  {
    var parts := Mentions(escape, current, friends[..j]);
    var last := UserLink(escape, current, friends[j], true, false);
    assert FriendList(escape, current, friends, size) == Join(parts, ", ") + (" and " + last);
    MentionsPrefix(escape, current, friends, j, i);
    JoinEndsWithLast(parts, ", ", i);
    var p: string :| Join(parts, ", ") == p + parts[i];
    assert last == Mention(escape, current, friends, j);
    assert Join(parts, ", ") + (" and " + last)
      == p + Mention(escape, current, friends, i) + " and " + Mention(escape, current, friends, j) + [];
  }

  /** Neighbouring named friends before " and N other friends". */
  lemma AdjacentCounted(escape: string -> string, current: Option<int>, friends: seq<User>, size: nat, i: nat, j: nat)
    requires |friends| > size + 1 && j == i + 1 && j < size
    ensures exists p: string, q: string ::
      FriendList(escape, current, friends, size) == p + Mention(escape, current, friends, i) + ", " + Mention(escape, current, friends, j) + q
  {
    var tail := " and " + NatToString(|friends| - size) + " other friends";
    assert FriendList(escape, current, friends, size) == Join(Mentions(escape, current, friends[..size]), ", ") + tail;
    AdjacentInJoin(escape, current, friends, size, tail, i, j);
  }

  /** Neighbouring friends before the last one of a list named in full. */
  lemma AdjacentNamed(escape: string -> string, current: Option<int>, friends: seq<User>, size: nat, i: nat, j: nat)
    requires |friends| <= size + 1 && j == i + 1 && j + 1 < |friends|
    ensures exists p: string, q: string ::
      FriendList(escape, current, friends, size) == p + Mention(escape, current, friends, i) + ", " + Mention(escape, current, friends, j) + q
  {
    var n := |friends|;
    var tail := " and " + UserLink(escape, current, friends[n - 1], true, false);
    assert FriendList(escape, current, friends, size) == Join(Mentions(escape, current, friends[..n - 1]), ", ") + tail;
    AdjacentInJoin(escape, current, friends, n - 1, tail, i, j);
  }

  /**
   * The named friends come in list order: each is followed by the next, with
   * ", " between them, except " and " before the last friend of a list
   * named in full.
   */
  lemma FriendListOrder(escape: string -> string, current: Option<int>, friends: seq<User>, size: nat, i: nat, j: nat)
    requires |friends| >= 1 && j == i + 1 && j < Named(|friends|, size)
    ensures var sep := if j + 1 == |friends| then " and " else ", ";
      exists p: string, q: string ::
        FriendList(escape, current, friends, size) == p + Mention(escape, current, friends, i) + sep + Mention(escape, current, friends, j) + q
  {
    if |friends| > size + 1 {
      AdjacentCounted(escape, current, friends, size, i, j);
    } else if j + 1 < |friends| {
      AdjacentNamed(escape, current, friends, size, i, j);
    } else {
      AdjacentAtAnd(escape, current, friends, size, i, j);
    }
  }

  /**
   * When friends are counted rather than named, the count is everyone not
   * named, so it is at least two and the sentence ends with it.
   */
  lemma FriendListCounts(escape: string -> string, current: Option<int>, friends: seq<User>, size: nat)
    requires |friends| >= 1 && Named(|friends|, size) < |friends|
    ensures var others := |friends| - Named(|friends|, size);
      && others >= 2
      && exists p: string :: FriendList(escape, current, friends, size) == p + (" and " + NatToString(others) + " other friends")
  {
    var n := |friends|;
    var p := Join(Mentions(escape, current, friends[..size]), ", ");
    assert FriendList(escape, current, friends, size) == p + (" and " + NatToString(n - size) + " other friends");
  }

  /** Three friends with the default size: "A, b and c", each written by `user_link`. */
  lemma ThreeFriends(escape: string -> string, current: Option<int>, a: User, b: User, c: User)
    ensures FriendList(escape, current, [a, b, c], 3)
      == UserLink(escape, current, a, true, true) + ", " + UserLink(escape, current, b, true, false)
         + (" and " + UserLink(escape, current, c, true, false))
  {
    var parts := Mentions(escape, current, [a, b, c][..2]);
    assert parts == [UserLink(escape, current, a, true, true), UserLink(escape, current, b, true, false)];
    assert Join(parts, ", ") == parts[0] + ", " + parts[1];
  }

  // =======================================================================
  // HomeHandler.get

  function Ids(rs: seq<Recipe>): set<int> {
    set r | r in rs :: r.id
  }

  /** `[r for r in rs if r["id"] not in ids]` */
  function ExcludeIds(rs: seq<Recipe>, ids: set<int>): (r: seq<Recipe>)
    ensures |r| <= |rs|
  {
    if rs == [] then []
    else (if rs[0].id in ids then [] else [rs[0]]) + ExcludeIds(rs[1..], ids)
  }

  /** The filter keeps exactly the recipes whose id is not excluded. */
  lemma {:induction false} ExcludeIdsMembers(rs: seq<Recipe>, ids: set<int>)
    ensures forall x :: x in ExcludeIds(rs, ids) <==> x in rs && x.id !in ids
  {
    if rs != [] {
      ExcludeIdsMembers(rs[1..], ids);
      assert rs == [rs[0]] + rs[1..];
    }
  }

  /** The filter works recipe by recipe: filtering a concatenation concatenates the filtered parts. */
  lemma {:induction false} ExcludeIdsAppend(a: seq<Recipe>, b: seq<Recipe>, ids: set<int>)
    ensures ExcludeIds(a + b, ids) == ExcludeIds(a, ids) + ExcludeIds(b, ids)
  {
    if a != [] {
      var head := if a[0].id in ids then [] else [a[0]];
      var ab, a', restA, restB := a + b, a[1..], ExcludeIds(a[1..], ids), ExcludeIds(b, ids);
      ExcludeIdsAppend(a', b, ids);
      assert ab[0] == a[0] && ab[1..] == a' + b;
      assert ExcludeIds(ab, ids) == head + ExcludeIds(a' + b, ids);
      assert ExcludeIds(a, ids) == head + restA;
      assert head + (restA + restB) == (head + restA) + restB;
    } else {
      assert a + b == b;
    }
  }

  /** A single recipe is kept exactly when its id is not excluded. */
  lemma ExcludeIdsOne(x: Recipe, ids: set<int>)
    ensures ExcludeIds([x], ids) == if x.id in ids then [] else [x]
  {
    assert [x][1..] == [];
  }

  function Take<T>(s: seq<T>, n: nat): (r: seq<T>)
    ensures r <= s
    ensures |r| == if |s| <= n then |s| else n
  {
    if |s| <= n then s else s[..n]
  }

  datatype HomePage =
    | EmptyHome    // home-empty.html
    | Home(allRecipes: seq<Recipe>, userRecent: seq<Recipe>, friendsRecent: seq<Recipe>)

  /** How many friends' recipes the page keeps, by how many recipes the user has. */
  function FriendCap(own: nat): nat {
    if own == 0 then 6 else if own < 4 then 4 else 2
  }

  /**
   * `HomeHandler.get`: `own` are the user's recently clipped recipes and
   * `clipped` the friends' ones the database returned.
   */
  function HomeSelection(own: seq<Recipe>, clipped: seq<Recipe>): HomePage {
    var friendsRecent := ExcludeIds(clipped, Ids(own));
    var userRecent := if friendsRecent != [] then Take(own, 2) else Take(own, 4);
    var capped := Take(friendsRecent, FriendCap(|own|));
    if own == [] && |capped| < 2 then EmptyHome
    else Home(own, userRecent, capped)
  }

  /** The page never lists one of the user's own recipes among the friends'; it keeps the query's order. */
  lemma HomeFriendsNotOwn(own: seq<Recipe>, clipped: seq<Recipe>)
    requires HomeSelection(own, clipped).Home?
    ensures var page := HomeSelection(own, clipped);
      && page.friendsRecent <= ExcludeIds(clipped, Ids(own))
      && forall r :: r in page.friendsRecent ==> r in clipped && r.id !in Ids(own)
  {
    var remaining := ExcludeIds(clipped, Ids(own));
    var page := HomeSelection(own, clipped);
    ExcludeIdsMembers(clipped, Ids(own));
    forall r | r in page.friendsRecent ensures r in remaining {
      var i :| 0 <= i < |page.friendsRecent| && page.friendsRecent[i] == r;
      assert remaining[i] == r;
    }
  }

  /** The page lists the remaining friends' recipes up to 6, 4 or 2, and the user's first 2 beside them or first 4 alone. */
  lemma HomeBounds(own: seq<Recipe>, clipped: seq<Recipe>)
    requires HomeSelection(own, clipped).Home?
    ensures var page := HomeSelection(own, clipped);
      && |page.friendsRecent| == Min(|ExcludeIds(clipped, Ids(own))|, FriendCap(|own|))
      && page.userRecent <= own && page.allRecipes == own
      && |page.userRecent| == (if page.friendsRecent != [] then Min(|own|, 2) else Min(|own|, 4))
  {
  }

  function Min(a: int, b: int): int { if a <= b then a else b }

  /** The empty page shows exactly when the user has nothing and fewer than two friends' recipes remain. */
  lemma HomeEmptyIff(own: seq<Recipe>, clipped: seq<Recipe>)
    ensures HomeSelection(own, clipped) == EmptyHome <==> own == [] && |ExcludeIds(clipped, Ids(own))| < 2
  {
  }

  // =======================================================================
  // LoginHandler.get

  datatype LoginStep =
    | StartLogin          // no `next`: redirect to the login URL for the home page
    | SpansHosts          // HTTP 404
    | Proceed(next: string)

  /** The check on the `next` argument: it must be a URL on this very host. */
  function LoginCheck(next: Option<string>, host: string): LoginStep {
    if !Truthy(next) then StartLogin
    else if !StartsWith(next.value, "https://" + host + "/") && !StartsWith(next.value, "http://" + host + "/") then SpansHosts
    else Proceed(next.value)
  }

  /** Login proceeds exactly with URLs of the form scheme://host/... for http or https. */
  lemma LoginSameHost(next: Option<string>, host: string)
    requires Truthy(next)
    ensures LoginCheck(next, host).Proceed? <==>
      exists rest :: next.value == "https://" + host + "/" + rest || next.value == "http://" + host + "/" + rest
  {
    var s := next.value;
    var a, b := "https://" + host + "/", "http://" + host + "/";
    if StartsWith(s, a) {
      assert s == a + s[|a|..];
    } else if StartsWith(s, b) {
      assert s == b + s[|b|..];
    }
    if exists rest :: s == a + rest || s == b + rest {
      var rest :| s == a + rest || s == b + rest;
      if s == a + rest {
        assert s[..|a|] == a;
      } else {
        assert s[..|b|] == b;
      }
    }
  }

  /** A slash-free name ends where the slash after it sits, so two such authorities agree. */
  lemma {:induction false} SameAuthority(p: string, h1: string, h2: string, r1: string, r2: string)
    requires '/' !in h1 && '/' !in h2
    requires p + h1 + "/" + r1 == p + h2 + "/" + r2
    ensures h1 == h2
  {
    SlashAfter(p, h1, r1);
    SlashAfter(p, h2, r2);
    var s := p + h1 + "/" + r1;
    assert h1 == s[|p|..|p| + |h1|] == h2;
  }

  /** In `p + h + "/" + r` with a slash-free `h`, the first slash after `p` closes `h`. */
  lemma SlashAfter(p: string, h: string, r: string)
    requires '/' !in h
    ensures var s := p + h + "/" + r;
      && s[|p| + |h|] == '/'
      && forall j :: |p| <= j < |p| + |h| ==> s[j] != '/'
  {
    var s := p + h + "/" + r;
    forall j | |p| <= j < |p| + |h| ensures s[j] != '/' {
      assert s[j] == h[j - |p|];
    }
  }

  /** A URL on another host is refused with 404, whatever scheme it uses. */
  lemma OtherHostRefused(host: string, other: string, rest: string, secure: bool)
    requires '/' !in host && '/' !in other && host != other
    ensures var scheme := if secure then "https://" else "http://";
      LoginCheck(Some(scheme + other + "/" + rest), host) == SpansHosts
  {
    var scheme := if secure then "https://" else "http://";
    var s := scheme + other + "/" + rest;
    LoginSameHost(Some(s), host);
    if LoginCheck(Some(s), host).Proceed? {
      var r :| s == "https://" + host + "/" + r || s == "http://" + host + "/" + r;
      assert s[4] == scheme[4];
      if secure && s == "https://" + host + "/" + r {
        SameAuthority("https://", other, host, rest, r);
      } else if !secure && s == "http://" + host + "/" + r {
        SameAuthority("http://", other, host, rest, r);
      }
    }
  }

  // =======================================================================
  // Backend.update_friends

  /** `rows`: the user befriends each id, then each id befriends the user. */
  function FriendRows(userId: int, friendIds: seq<int>): (rows: seq<(int, int)>)
    ensures |rows| == 2 * |friendIds|
  {
    seq(|friendIds|, i requires 0 <= i < |friendIds| => (userId, friendIds[i]))
    + seq(|friendIds|, i requires 0 <= i < |friendIds| => (friendIds[i], userId))
  }

  /**
   * `update_friends(user, friend_ids)`: nothing is written for an empty list,
   * nor when none of the ids is a known user; `known` are the ids the user
   * table returned, which its `WHERE id IN (...)` draws from `friendIds`.
   */
  function UpdateFriends(userId: int, friendIds: seq<int>, known: seq<int>): Option<seq<(int, int)>>
    requires forall k :: k in known ==> k in friendIds
  {
    if friendIds == [] || known == [] then None else Some(FriendRows(userId, known))
  }

  /** The rows are symmetric and pair the user with exactly the known friends, both ways. */
  lemma FriendRowsSymmetric(userId: int, known: seq<int>)
    ensures var rows := FriendRows(userId, known);
      && (forall a, b :: (a, b) in rows ==> (b, a) in rows)
      && (forall f :: f in known ==> (userId, f) in rows && (f, userId) in rows)
      && (forall row :: row in rows ==> (row.0 == userId && row.1 in known) || (row.1 == userId && row.0 in known))
  {
    var rows := FriendRows(userId, known);
    var n := |known|;
    forall f | f in known ensures (userId, f) in rows && (f, userId) in rows {
      var i :| 0 <= i < n && known[i] == f;
      assert rows[i] == (userId, f);
      assert rows[n + i] == (f, userId);
    }
    forall row | row in rows ensures (row.0 == userId && row.1 in known) || (row.1 == userId && row.0 in known) {
      var k :| 0 <= k < |rows| && rows[k] == row;
      if k < n {
        assert row == (userId, known[k]);
      } else {
        assert row == (known[k - n], userId);
      }
    }
  }

  /**
   * Rows are written exactly when both lists are non-empty, two per known id,
   * and every row pairs the user with one of the ids it was given.
   */
  lemma UpdateFriendsWrites(userId: int, friendIds: seq<int>, known: seq<int>)
    requires forall k :: k in known ==> k in friendIds
    ensures UpdateFriends(userId, friendIds, known).Some? <==> friendIds != [] && known != []
    ensures UpdateFriends(userId, friendIds, known).Some? ==>
      |UpdateFriends(userId, friendIds, known).value| == 2 * |known|
    ensures UpdateFriends(userId, friendIds, known).Some? ==>
      forall row :: row in UpdateFriends(userId, friendIds, known).value ==>
        (row.0 == userId && row.1 in friendIds) || (row.1 == userId && row.0 in friendIds)
  {
    FriendRowsSymmetric(userId, known);
  }

  // =======================================================================
  // cdn_url

  /** `cdn_url(hash)`: the CloudFront URL of a stored object. */
  function CdnUrl(cloudfrontHost: string, hash: string): string {
    "http://" + cloudfrontHost + "/" + hash
  }

  /** The object key is recovered as the last path segment of its URL. */
  lemma CdnUrlKey(cloudfrontHost: string, hash: string)
    requires '/' !in hash
    ensures AfterLast(CdnUrl(cloudfrontHost, hash), '/') == hash
  {
    assert CdnUrl(cloudfrontHost, hash) == ("http://" + cloudfrontHost) + ['/'] + hash;
    AfterLastOf("http://" + cloudfrontHost, '/', hash);
  }

  /** In particular for a content key `put_cdn_content` produced. */
  lemma CdnUrlOfContent(prims: Aws.Primitives, cloudfrontHost: string, mime: string, data: string)
    ensures AfterLast(CdnUrl(cloudfrontHost, Aws.ContentKey(prims, mime, data)), '/') == Aws.ContentKey(prims, mime, data)
  {
    CdnUrlKey(cloudfrontHost, Aws.ContentKey(prims, mime, data));
  }
}
