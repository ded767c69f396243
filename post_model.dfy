/**
 * The Post model: its row, the `image_base64` accessor that turns the stored
 * image into a data URL (section 3 of RFC 2397), what its JSON form shows
 * ($hidden, $appends) and which attributes `Post::create` accepts ($fillable).
 * Comments and tag rows are plain records here.
 */
module PostModel {
  import opened Php
  import Base64

  /** A `posts` row. */
  datatype Post = Post(
    id: nat,
    userId: nat,
    content: Option<string>,
    imageData: Option<seq<byte>>,
    imageMime: Option<string>,
    createdAt: int)

  /** A `comments` row. */
  datatype Comment = Comment(id: nat, postId: nat, userId: nat, content: string, createdAt: int)

  /** The data URL of an image: "data:" + MIME type + ";base64," + the base64 text. */
  function DataUrl(mime: string, bytes: seq<byte>): string {
    "data:" + mime + ";base64," + Base64.Encode(bytes)
  }

  /** getImageBase64Attribute(): a data URL when both the image bytes and the MIME type are truthy, null otherwise. */
  function ImageBase64(p: Post): (r: Option<string>)
    ensures r.Some? <==> TruthyBytes(p.imageData) && Truthy(p.imageMime)
    ensures r.Some? ==> r.value == DataUrl(p.imageMime.value, p.imageData.value)
  {
    if TruthyBytes(p.imageData) && Truthy(p.imageMime) then Some(DataUrl(p.imageMime.value, p.imageData.value))
    else None
  }

  /**
   * The accessor gives null exactly when the bytes or the MIME type are
   * falsy; otherwise a data URL naming the MIME type whose payload decodes
   * back to the stored bytes.
   */
  lemma ImageBase64RoundTrip(p: Post)
    ensures ImageBase64(p).None? <==> !TruthyBytes(p.imageData) || !Truthy(p.imageMime)
    ensures ImageBase64(p).Some? ==>
              var u := ImageBase64(p).value;
              var m := |p.imageMime.value|;
              && u[..5] == "data:" && u[5..5 + m] == p.imageMime.value && u[5 + m..13 + m] == ";base64,"
              && Base64.Decode(u[13 + m..]) == Some(p.imageData.value)
  {
    if ImageBase64(p).Some? {
      DataUrlParts(p.imageMime.value, p.imageData.value);
    }
  }

  /**
   * A data URL splits back into its parts: the "data:" scheme, the MIME type,
   * the ";base64," marker, and a payload of 4 * ceil(n / 3) characters that
   * decodes to the image bytes.
   */
  lemma DataUrlParts(mime: string, bytes: seq<byte>)
    ensures var u := DataUrl(mime, bytes);
            var m := |mime|;
            && |u| == 13 + m + 4 * ((|bytes| + 2) / 3)
            && u[..5] == "data:"
            && u[5..5 + m] == mime
            && u[5 + m..13 + m] == ";base64,"
            && Base64.Decode(u[13 + m..]) == Some(bytes)
  {
    Base64.EncodeLength(bytes);
    Base64.DecodeEncode(bytes);
    FourParts("data:", mime, ";base64,", Base64.Encode(bytes));
  }

  /** Each part of a four-part concatenation is the slice where it was put. */
  lemma FourParts(a: string, b: string, c: string, d: string)
    ensures var u := a + b + c + d;
            var i, j, k := |a|, |a| + |b|, |a| + |b| + |c|;
            && |u| == k + |d|
            && u[..i] == a && u[i..j] == b && u[j..k] == c && u[k..] == d
  {
  }

  /** A scalar value of a JSON object. */
  datatype Json = JNull | JInt(i: int) | JString(s: string)

  function OptString(s: Option<string>): Json {
    if s.Some? then JString(s.value) else JNull
  }

  /** $hidden */
  const Hidden: set<string> := {"image_data"}

  /** $appends */
  const Appends: set<string> := {"image_base64"}

  /** The columns of a `posts` row that the model holds. */
  const Columns: set<string> := {"id", "user_id", "content", "image_data", "image_mime", "created_at"}

  /** toArray(): the visible columns plus the appended accessor. */
  function Serialize(p: Post): (j: map<string, Json>)
    ensures j.Keys == (Columns - Hidden) + Appends
    ensures "image_data" !in j && "image_base64" in j
    ensures j["image_base64"] == OptString(ImageBase64(p))
    ensures j["id"] == JInt(p.id) && j["user_id"] == JInt(p.userId)
    ensures j["content"] == OptString(p.content) && j["image_mime"] == OptString(p.imageMime)
  {
    map["id" := JInt(p.id),
        "user_id" := JInt(p.userId),
        "content" := OptString(p.content),
        "image_mime" := OptString(p.imageMime),
        "created_at" := JInt(p.createdAt),
        "image_base64" := OptString(ImageBase64(p))]
  }

  /** A serialised post with an image carries its data URL, which decodes back to the stored bytes. */
  lemma SerializedImageDecodes(p: Post)
    requires TruthyBytes(p.imageData) && Truthy(p.imageMime)
    ensures var u := Serialize(p)["image_base64"];
            var m := |p.imageMime.value|;
            && u.JString?
            && u.s[..5] == "data:" && u.s[5..5 + m] == p.imageMime.value
            && Base64.Decode(u.s[13 + m..]) == Some(p.imageData.value)
  {
    DataUrlParts(p.imageMime.value, p.imageData.value);
  }

  /** $fillable */
  const Fillable: set<string> := {"user_id", "content", "image_data", "image_mime"}

  /** Mass assignment: attributes outside $fillable are discarded, the others kept as given. */
  function Fill<V>(attrs: map<string, V>): (r: map<string, V>)
    ensures r.Keys == attrs.Keys * Fillable
    ensures forall k :: k in r ==> r[k] == attrs[k]
  {
    map k | k in attrs && k in Fillable :: attrs[k]
  }

  /**
   * Mass assignment ignores any attribute outside $fillable, and keeps all
   * four columns PostService::create passes.
   */
  lemma FillGuards<V>(attrs: map<string, V>, k: string, v: V)
    ensures k !in Fillable ==> Fill(attrs[k := v]) == Fill(attrs)
    ensures attrs.Keys == {"user_id", "content", "image_data", "image_mime"} ==> Fill(attrs) == attrs
  {
    if k !in Fillable {
      assert Fill(attrs[k := v]).Keys == Fill(attrs).Keys;
    }
  }
}
