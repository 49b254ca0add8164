/**
 * The column and array-key names the observer reads and writes (the
 * constants of the import library's MemberNames class, which are the column
 * names of Magento's url_rewrite table).
 */
module MemberNames {

  const STORE_ID := "store_id"
  const REQUEST_PATH := "request_path"
  const TARGET_PATH := "target_path"
  const REDIRECT_TYPE := "redirect_type"
  const IS_AUTOGENERATED := "is_autogenerated"
  const METADATA := "metadata"
  /** The primary key of a url_rewrite row; the observer never writes it. */
  const URL_REWRITE_ID := "url_rewrite_id"

  /** Key of a category's id. */
  const ENTITY_ID := "entity_id"
  const PRODUCT_ID := "product_id"
  /** Key of the category id, both in a product/category relation and in decoded metadata. */
  const CATEGORY_ID := "category_id"

  /** The redirect type the leftover phase writes: a permanent redirect. */
  const PERMANENT_REDIRECT := 301
}
