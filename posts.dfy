/** The stored blog post, shared by the server and the app. Timestamps are
    the ISO strings the server writes, modelled as integers in the same
    order. */
module Posts {
  import opened Wrappers

  datatype Post = Post(
    id: string,
    title: string,
    content: string,
    images: seq<string>,
    coverImage: Option<string>,
    createdAt: int,
    updatedAt: int)
}
