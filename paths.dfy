/**
 * The file paths of the dataset: where an image lives, where its Inception V3
 * feature vector is cached, and the path the training pipeline later reads
 * the cached vector from.
 */
module DataPaths {
  import opened PyString

  const DataImages := "data/Images"
  const FeatureVectors := "feature_vectors"
  const NpySuffix := ".npy"

  /** `BASE_DIR`: `/content` when running on Colab (when `/content/` exists),
      the current directory otherwise. Whether the directory exists is a
      parameter: the model does not look at a file system. Neither name holds
      the letter `d`, so no `data/Images` can start inside the base directory
      of an image path. */
  function BaseDir(onColab: bool): (d: string)
    ensures d != [] && '/' !in d[1..] && 'd' !in d && d[|d| - 1] != '/'
  {
    if onColab then "/content" else "."
  }

  /** The `image` column: the image's file name under `data/Images`. */
  function ImagePath(onColab: bool, name: string): (p: string)
    ensures EndsWith(p, name)
  {
    BaseDir(onColab) + "/data/Images/" + name
  }

  /** `fv_path`: the directory of the cached feature vectors. */
  function FeatureVectorDir(onColab: bool): (d: string)
    ensures d != [] && d[|d| - 1] == '/'
  {
    BaseDir(onColab) + "/feature_vectors/"
  }

  /** `path.split('/')[-1]`. */
  function LastSegment(path: string): (seg: string)
    ensures '/' !in seg
  {
    var parts := Split(path, '/');
    parts[|parts| - 1]
  }

  /** The name the cache loop gives a feature vector: the cache directory
      followed by the image path's last segment. */
  function CacheFileName(onColab: bool, imagePath: string): (f: string)
    ensures EndsWith(f, LastSegment(imagePath))
  {
    FeatureVectorDir(onColab) + LastSegment(imagePath)
  }

  /** The file `np.save` writes: the name as given when it already ends in
      `.npy`, otherwise the name with `.npy` appended. */
  function NpySaveName(file: string): (saved: string)
    ensures EndsWith(saved, NpySuffix)
  {
    if EndsWith(file, NpySuffix) then file else file + NpySuffix
  }

  /** The `feature_vector` column: the image path with `data/Images` replaced
      by `feature_vectors`, then `.npy` appended. */
  function FeatureVectorPath(imagePath: string): (p: string)
    ensures EndsWith(p, NpySuffix)
  {
    Replace(imagePath, DataImages, FeatureVectors) + NpySuffix
  }

  // ---------------------------------------------------------------------
  // The last segment of a path

  /** The last segment holds no `/`, ends the path, and is either the whole
      path or preceded by a `/`: it is the longest `/`-free suffix. */
  lemma LastSegmentSpec(path: string)
    ensures var seg := LastSegment(path);
      && '/' !in seg
      && EndsWith(path, seg)
      && (|seg| == |path| || path[|path| - |seg| - 1] == '/')
  {
    var parts := Split(path, '/');
    var seg := parts[|parts| - 1];
    if |parts| >= 2 {
      JoinLast(parts, '/');
      var init := Join(parts[..|parts| - 1], '/');
      assert path == init + ['/'] + seg;
      assert path[|path| - |seg|..] == seg;
      assert path[|path| - |seg| - 1] == '/';
    }
  }

  /** The last segment of `dir + "/" + name` is `name` when `name` holds no `/`. */
  lemma LastSegmentAfterSlash(dir: string, name: string)
    requires '/' !in name
    ensures LastSegment(dir + ['/'] + name) == name
  {
    SplitAppend(dir, name, '/');
    SplitWithoutSep(name, '/');
  }

  /** The image path of a file name without `/` ends in that very name. */
  lemma LastSegmentOfImagePath(onColab: bool, name: string)
    requires '/' !in name
    ensures LastSegment(ImagePath(onColab, name)) == name
  {
    var dir := BaseDir(onColab) + "/data/Images";
    assert ImagePath(onColab, name) == dir + ['/'] + name;
    LastSegmentAfterSlash(dir, name);
  }

  // ---------------------------------------------------------------------
  // The feature-vector path

  /** `data/Images` holds a `/` at its fifth character, so it cannot occur in a
      string whose only `/` is the first character. */
  lemma NoDataImagesAfterSlash(name: string)
    requires '/' !in name
    ensures !Occurs(DataImages, ['/'] + name)
  {
    var t := ['/'] + name;
    forall i: nat | i <= |t| ensures !MatchAt(t, i, DataImages) {
      if i + |DataImages| <= |t| {
        assert t[i..i + |DataImages|][4] == t[i + 4] == name[i + 3];
        assert DataImages[4] == '/';
      }
    }
  }

  /** The image path split around the one occurrence of `data/Images`. */
  lemma ImagePathParts(onColab: bool, name: string)
    ensures ImagePath(onColab, name)
         == (BaseDir(onColab) + "/") + (DataImages + (['/'] + name))
  {
  }

  /** The feature-vector path of an image path. */
  lemma FeatureVectorPathParts(b: string, name: string)
    ensures (b + "/") + (FeatureVectors + (['/'] + name)) + NpySuffix
         == b + "/feature_vectors/" + name + NpySuffix
  {
  }

  /** For an image file name without `/`, the feature-vector column holds the
      name under `feature_vectors` with `.npy` appended. */
  lemma FeatureVectorPathOfImage(onColab: bool, name: string)
    requires '/' !in name
    ensures FeatureVectorPath(ImagePath(onColab, name))
         == FeatureVectorDir(onColab) + name + NpySuffix
  {
    var b := BaseDir(onColab);
    var rest := ['/'] + name;
    ImagePathParts(onColab, name);
    ReplaceSkipsPrefix(b + "/", DataImages + rest, DataImages, FeatureVectors);
    ReplaceAtStart(DataImages, rest, FeatureVectors);
    NoDataImagesAfterSlash(name);
    FeatureVectorPathParts(b, name);
  }

  // ---------------------------------------------------------------------
  // The file written by the cache loop is the file read for training

  /** A suffix that holds no `/` ends `dir + name`, with `dir` ending in `/`,
      exactly when it ends `name`. */
  lemma EndsWithAfterDir(dir: string, name: string, suffix: string)
    requires dir != [] && dir[|dir| - 1] == '/' && '/' !in suffix
    ensures EndsWith(dir + name, suffix) <==> EndsWith(name, suffix)
  {
    var s := dir + name;
    if |suffix| <= |name| {
      assert s[|s| - |suffix|..] == name[|name| - |suffix|..];
    } else if |suffix| <= |s| {
      assert s[|s| - |suffix|..][|suffix| - |name| - 1] == dir[|dir| - 1];
    }
  }

  /** For every image file name without `/`: the file `np.save` writes in the
      cache loop is the file the `feature_vector` column names (and that the
      training pipeline loads) exactly when the name does not already end in
      `.npy`. For such a name `np.save` keeps the name as it is, while the
      column appends a second `.npy`. */
  lemma CacheFileMatchesFeatureVectorPath(onColab: bool, name: string)
    requires '/' !in name
    ensures NpySaveName(CacheFileName(onColab, ImagePath(onColab, name)))
         == FeatureVectorPath(ImagePath(onColab, name))
        <==> !EndsWith(name, NpySuffix)
  {
    var dir := FeatureVectorDir(onColab);
    LastSegmentOfImagePath(onColab, name);
    FeatureVectorPathOfImage(onColab, name);
    EndsWithAfterDir(dir, name, NpySuffix);
    assert CacheFileName(onColab, ImagePath(onColab, name)) == dir + name;
    if EndsWith(name, NpySuffix) {
      assert |dir + name| < |dir + name + NpySuffix|;
    }
  }
}
