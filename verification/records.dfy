/** The four document kinds of the store, one per collection (`User`, `Session`,
    `Post`, `Comment`), with the fields their declarations give them. Ids are
    opaque strings handed out by the store. */
module Records {

  datatype User = User(
    id: string,
    name: string,
    profilePhoto: string,
    username: string,
    password: string)

  datatype Session = Session(id: string, user: string, createdAt: string)

  datatype Post = Post(
    id: string,
    author: string,
    photo: string,
    caption: string,
    likedBy: seq<string>,
    comments: seq<string>,
    createdAt: string)

  datatype Comment = Comment(
    id: string,
    post: string,
    author: string,
    text: string,
    createdAt: string)
}
