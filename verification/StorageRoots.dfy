/** The storage root on disk: the blob files and the two buckets of the index
    database, as objects that are updated in place. */
module StorageRoots {
  import opened Wrappers
  import opened ByteStrings
  import opened Paths
  import opened Digests
  import opened Stores
  import opened Buckets

  class StorageRoot {
    const blobRoot: FilePath
    var files: map<FilePath, Bytes>
    // a bucket that was never created is null
    var tags: Bucket?
    var manifests: Bucket?

    ghost predicate Valid()
      reads this, tags, manifests
    {
      && (tags != null ==> tags.Valid())
      && (manifests != null ==> manifests.Valid())
    }

    ghost function Model(): Store
      reads this, tags, manifests
    {
      Store(blobRoot, files, Contents(tags), Contents(manifests))
    }

    static ghost function Contents(b: Bucket?): map<Bytes, Bytes>
      reads b
    {
      if b == null then map[] else b.contents
    }

    constructor (blobRoot: FilePath)
      ensures Valid() && Model() == Store(blobRoot, map[], map[], map[])
    {
      this.blobRoot := blobRoot;
      files, tags, manifests := map[], null, null;
    }

    /** Writes one blob file, unless the file system refuses. */
    method WriteBlob(digest: Bytes, data: Bytes, refused: bool) returns (ok: bool)
      requires |digest| >= |SHA256_PREFIX| + 2
      modifies this`files
      ensures ok == !refused
      ensures files == if ok then old(files)[WriteKey(blobRoot, digest) := data] else old(files)
    {
      if refused {
        return false;
      }
      var hex := digest[|SHA256_PREFIX|..];
      var dir := Join(Join(blobRoot, "sha256"), hex[..2]);
      files := files[Join(dir, hex) := data];
      return true;
    }

    /** Removes the index file; a file that cannot be removed stays. */
    method RemoveIndex(refused: bool) returns (removed: bool)
      requires Valid()
      modifies this`tags, this`manifests
      ensures Valid()
      ensures removed == !refused
      ensures removed ==> tags == null && manifests == null
      ensures !removed ==> tags == old(tags) && manifests == old(manifests)
    {
      removed := !refused;
      if removed {
        tags, manifests := null, null;
      }
    }
  }
}
